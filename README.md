# Snake game loop, modelled in Dafny

A model of the single-player snake game in `snake/game.py`. The snake moves on
a 21-by-21 grid whose edges wrap around. It grows when its head reaches the
food and the game ends when its head is on its own body. The program is one
loop. Each pass handles the pending events (quit, key presses, window
resizes), runs at most one tick of the snake once 125 ms have gathered, draws
the frame and adds the frame's milliseconds to the tick accumulator.

The model has five modules:

- `Grid` (`grid.dfy`): coordinates, the five direction vectors, and the head
  update modulo the grid size.
- `Input` (`input.dfy`): the arrow keys and their W/S/A/D aliases, and the rule
  that ignores a key whose heading is exactly opposite to the stored direction.
- `Layout` (`layout.dfy`): the resize arithmetic (cell size and centring
  offsets) and the layout fields of `GraphicState`, which a resize updates in
  place.
- `Rules` and `Runs` (`rules.dfy`, `runs.dfy`): the game logic as functions on a
  value `Game` that holds every mutable field of `GameState`. They cover one
  tick, the tick gate, one frame's events, one frame and a whole run of frames.
  The lemmas about them state what the game promises.
- `SnakeGame` (`game.dfy`): the class `GameState`, whose methods change its
  fields in place (`body` is a `seq` that is appended to and has its first
  element dropped). It also holds the loop body `Frame` and the loop `Loop`,
  which update a `GameState` and a `GraphicState`. Each method is proved to
  produce exactly the state the corresponding `Rules`/`Runs` function
  describes, and to keep the invariant `Rules.Inv`. That invariant says the
  head, the food and every body segment are on the grid, the direction is one
  of the five vectors, the body is as long as the score, and the accumulator is
  non-negative.

Arithmetic: Python's `%` and `//` with a positive right operand give the same
results as Dafny's `%` and `/`. So the head update `(x + dx) % grid_size` and
the layout formulas carry over for all integers, including a head that steps
to -1. The tick length `1e3 / 8` is exactly 125 and the clock reports whole
milliseconds, so the accumulator is an integer.

Four behaviours of the code are easy to misread, and the model keeps each
as written:

- A collision tick does not freeze the snake. Body and score stay as they
  were, but the head still moves by the direction, and the food is redrawn if
  the head was on it (`Rules.CollisionTick`).
- The gate is checked before the frame's time is added. With clock deltas of
  60, 60 and 10 ms, no tick fires in those three frames; it fires in the next
  one, and the accumulator then holds that frame's time rather than 0 or the
  5 ms excess (`Runs.ClockExample`).
- A reversing key is judged against the stored direction, which an earlier
  key of the same frame may already have changed. Two keys can therefore
  turn the snake around before the next tick (`Input.TwoKeysReverse`,
  `Rules.FrameCanReverse`).
- The collision check uses the head from before the move, so every collision
  is seen one tick late; a two-key reversal is one way to reach one
  (`Rules.CollisionLagsOneTick`).

## Model

| member | source | states |
|---|---|---|
| `Grid.WrapAxis` | snake/game.py:147-148 | the wrapped coordinate lies in [0, n); from an on-grid coordinate, a step of -1, 0 or 1 lands on the next cell, and stepping past either edge re-enters at the other edge |
| `Grid.Move` | snake/game.py:147-148 | the new head is always on the grid; with the standing direction (0,0) it stays put exactly when it was on the grid |
| `Input.Heading` | snake/game.py:89-103 | every steering key (arrow or W/S/A/D alias) asks for one of the four unit headings |
| `Input.Steer` | snake/game.py:88-103 | a non-steering key leaves the direction alone; a steering key's heading is taken if and only if the stored direction is not its exact opposite; the direction is unchanged if and only if it already was that heading or its opposite |
| `Input.SteerKeepsDirection` | snake/game.py:88-103 | the stored direction stays one of (0,0) and the four unit headings |
| `Input.SingleKeyNeverReverses` | snake/game.py:88-103 | one key press never turns a moving snake into its opposite direction |
| `Input.AnyKeyStartsTheSnake` | snake/game.py:88-103 | from the initial direction (0,0) every steering key is taken |
| `Input.ReversalRejected` | snake/game.py:89-103 | moving right, Left (or A) is ignored while Up and Down are taken |
| `Input.TwoKeysReverse` | snake/game.py:88-103 | moving right, Up followed by Left leaves the snake moving left |
| `Layout.ComputePlacement` | snake/game.py:111-116 | for a window of non-negative size: cells are non-negative and the largest size for which the grid fits in min(w, h); offsets are non-negative; 2 * offset + grid extent fits in each window side, leaving at most one spare pixel, so the grid is centred |
| `Layout.GraphicState.constructor` | snake/game.py:30-35 | the default layout: 30-pixel cells, a 600 by 600 window, zero offsets |
| `Layout.GraphicState.Resize` | snake/game.py:106-116 | stores the new window size and sets cell size and offsets to `ComputePlacement` of it |
| `Rules.TickPreservesInv` | snake/game.py:127-148 | a tick keeps head, food and body on the grid and the body exactly as long as the score, whether the snake grows, moves or collides |
| `Rules.GrowthTick` | snake/game.py:132-144 | head on the food and not on the body: the body becomes old body + [head], the score rises by one, the food is the new draw, the game-over flag is unchanged |
| `Rules.MoveTick` | snake/game.py:132-136 | head neither on the body nor on the food: the body becomes old body minus its oldest segment plus the head (empty stays empty), with unchanged length; score, food and game-over flag are unchanged |
| `Rules.CollisionTick` | snake/game.py:128-148 | head on the body: the game is over, body and score are unchanged, the head still moves by the direction, and the food is redrawn if the head was on it |
| `Rules.TickMovesHead` | snake/game.py:146-148 | every tick moves the head by the direction modulo the grid size and leaves direction, accumulator and running flag alone |
| `Rules.WrapAtRightEdge` | snake/game.py:147-148 | on the 21-cell grid, head (20,10) moving right goes to (0,10) |
| `Rules.FirstBite` | snake/game.py:127-148 | grid 5, head (2,2) on food (2,2), empty body, moving right: one tick gives body [(2,2)], score 1, the new food, head (3,2), game not over |
| `Rules.CollisionLagsOneTick` | snake/game.py:128-148 | a tick can put the head on the body without ending the game; the next tick ends it |
| `Rules.UpdateAfterGameOver` | snake/game.py:123 | once the game is over the gated update changes nothing |
| `Rules.UpdateResetsAccumulator` | snake/game.py:123-125 | when the gate fires the accumulator becomes 0, not the excess over the tick length, and exactly one tick runs |
| `Rules.UpdateKeepsGameOver` | snake/game.py:123-148 | the gated update never clears the game-over flag |
| `Rules.HandleEventsFrame` | snake/game.py:83-103 | a frame's events change only the running flag and the direction; running drops exactly when a quit event arrives; the direction stays valid |
| `Rules.HandleEventsPreservesInv` | snake/game.py:83-103 | handling events keeps the invariant |
| `Rules.FrameCanReverse` | snake/game.py:83-103 | the events Up, Left in one frame turn a snake moving right into one moving left |
| `Rules.FrameStepPreservesInv` | snake/game.py:83-209 | a whole frame keeps the invariant |
| `Rules.FrameAccumulator` | snake/game.py:123-209 | after a frame whose gate fired the accumulator holds exactly that frame's time; otherwise it has grown by it |
| `Rules.FrameGate` | snake/game.py:122-209 | a frame whose gate stays shut changes only the running flag, the direction and the accumulator (grown by the frame's time); a frame whose gate opens runs exactly one tick on the state after the events and leaves the accumulator at the frame's time |
| `Rules.FrameAfterGameOver` | snake/game.py:123-148 | after game over a frame leaves head, body, food, score and the flag unchanged |
| `Rules.FrameKeepsGameOver` | snake/game.py:123-148 | a frame never clears the game-over flag |
| `Runs.InitialInv` | snake/game.py:13-24 | the initial state (head (10,10), empty body, score 0, standing still, food on the grid) satisfies the invariant |
| `Runs.RunPreservesInv` | snake/game.py:81-209 | after any number of frames the head stays on the grid and the body is as long as the score |
| `Runs.GameOverIsFinal` | snake/game.py:123-148 | once over, the game stays over and head, body, food and score never change again |
| `Runs.GameOverMonotone` | snake/game.py:123-129 | the game-over flag is never cleared by any run |
| `Runs.AtMostOneTickPerFrame` | snake/game.py:122-125 | a run of k frames fires at most k ticks |
| `Runs.TicksWithinElapsedTime` | snake/game.py:123-209 | ticks times 125 ms plus the final accumulator never exceed the initial accumulator plus the clock's total time: the game never runs ahead of the clock |
| `Runs.ClockExample` | snake/game.py:123-209 | clock deltas 60, 60, 10 fire no tick and leave 130 ms; a fourth frame of 20 ms fires one tick and leaves 20 ms, not 25 |
| `Runs.NoCatchUp` | snake/game.py:123-125 | a frame that starts with eight ticks' worth of time runs one tick and keeps only the frame's own time |
| `SnakeGame.GameState.constructor` | snake/game.py:13-24 | a new state is valid and equals the initial game with the given first food cell |
| `SnakeGame.GameState.ApplyKey` | snake/game.py:88-103 | the direction becomes `Steer` of the old direction and the key; nothing else changes |
| `SnakeGame.GameState.Tick` | snake/game.py:127-148 | the fields become `Rules.Tick` of the old fields, and the invariant is kept |
| `SnakeGame.GameState.Update` | snake/game.py:122-148 | the fields become `Rules.Update` of the old fields, and the invariant is kept |
| `SnakeGame.HandleEvent` | snake/game.py:83-116 | quit clears running, a key steers, a resize sets the window size and layout; the graphics are untouched by other events |
| `SnakeGame.Frame` | snake/game.py:81-209 | the state becomes `FrameStep` of the old state; the layout is that of the frame's last resize, or unchanged |
| `SnakeGame.Loop` | snake/game.py:74-211 | the state becomes `Run` of the old state over the frames; the loop stops when input runs out or after a frame that saw quit |
| `SnakeGame.Init` | snake/game.py:44-65 | a fresh valid state equal to the initial game, and the default layout: 30-pixel cells, a 600 by 600 window, zero offsets |

## Left out

- Window creation, the caption and shutdown (`pygame.init`, `set_mode`, `pygame.quit`): foreign library calls. The window created at start is 630 by 630 pixels, but `window_w` and `window_h` keep their 600 default until the first resize; only text placement depends on them.
- All drawing (cells, food, head, body, the game-over text and the score) and the colours: they only read the state.
- Event polling and the clock are inputs: each frame is given its list of events and its milliseconds (`FrameInput`). The frame-rate cap of 30 fps is not modelled.
- `random.randint` is an input: each frame supplies a cell on the grid, used only if the food is eaten. The initial food is a parameter of the constructor. Uniformity of the draws is not modelled.
- SnakeGame.Loop: the source loops until a quit event. The model also stops when the given frames run out, because its input is finite.
- The class-level list default `body = []` shared by all instances: the model has one game, which owns its body.
- `snake/__main__.py` only calls `init`, `loop` and `deinit` in turn.
