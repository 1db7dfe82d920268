/** Whole runs of the game loop: a sequence of frames, played until the
    input runs out or a quit event has stopped the loop. */
module Runs {
  import opened Grid
  import opened Rules

  /** The state after playing the frames, front to back, while running. */
  function Run(g: Game, n: int, frames: seq<FrameInput>): Game
    requires n > 0
    decreases |frames|
  {
    if frames == [] || !g.running then g
    else Run(FrameStep(g, n, frames[0]), n, frames[1..])
  }

  /** How many of those frames fired a tick. */
  function TickCount(g: Game, n: int, frames: seq<FrameInput>): nat
    requires n > 0
    decreases |frames|
  {
    if frames == [] || !g.running then 0
    else
      (if Fires(HandleEvents(g, frames[0].events)) then 1 else 0)
      + TickCount(FrameStep(g, n, frames[0]), n, frames[1..])
  }

  /** The milliseconds the clock reported over the frames. */
  function TotalTime(frames: seq<FrameInput>): int
    decreases |frames|
  {
    if frames == [] then 0 else frames[0].dt + TotalTime(frames[1..])
  }

  predicate AllWellFormed(frames: seq<FrameInput>, n: int) {
    forall i :: 0 <= i < |frames| ==> WellFormed(frames[i], n)
  }

  /** The invariant holds after any run: the head, the food and every body
      segment are on the grid, the direction is one of the five vectors,
      and the body is exactly as long as the score. */
  lemma {:induction false} RunPreservesInv(g: Game, n: int, frames: seq<FrameInput>)
    requires Inv(g, n) && AllWellFormed(frames, n)
    ensures Inv(Run(g, n, frames), n)
    decreases |frames|
  {
    if frames != [] && g.running {
      FrameStepPreservesInv(g, n, frames[0]);
      RunPreservesInv(FrameStep(g, n, frames[0]), n, frames[1..]);
    }
  }

  /** A new game satisfies the invariant on the default grid. */
  lemma InitialInv(food: Coord)
    requires InGrid(food, DefaultGridSize)
    ensures Inv(Initial(food), DefaultGridSize)
  {
  }

  /** Once the game is over it stays over, and the snake, the food and the
      score never change again, however many frames follow. */
  lemma {:induction false} GameOverIsFinal(g: Game, n: int, frames: seq<FrameInput>)
    requires n > 0 && g.gameOver
    ensures var r := Run(g, n, frames);
      r.gameOver && r.head == g.head && r.body == g.body && r.food == g.food && r.score == g.score
    decreases |frames|
  {
    if frames != [] && g.running {
      FrameAfterGameOver(g, n, frames[0]);
      GameOverIsFinal(FrameStep(g, n, frames[0]), n, frames[1..]);
    }
  }

  /** The game-over flag is never cleared. */
  lemma {:induction false} GameOverMonotone(g: Game, n: int, frames: seq<FrameInput>)
    requires n > 0
    ensures g.gameOver ==> Run(g, n, frames).gameOver
    decreases |frames|
  {
    if frames != [] && g.running {
      FrameKeepsGameOver(g, n, frames[0]);
      GameOverMonotone(FrameStep(g, n, frames[0]), n, frames[1..]);
    }
  }

  /** At most one tick per frame. */
  lemma {:induction false} AtMostOneTickPerFrame(g: Game, n: int, frames: seq<FrameInput>)
    requires n > 0
    ensures TickCount(g, n, frames) <= |frames|
    decreases |frames|
  {
    if frames != [] && g.running {
      AtMostOneTickPerFrame(FrameStep(g, n, frames[0]), n, frames[1..]);
    }
  }

  /** The game never runs ahead of the clock: each tick uses up at least a
      full tick length of accumulated time, and what is left over is still
      in the accumulator. Because the accumulator is reset to zero rather
      than reduced, time past the tick length is lost, so the game can fall
      behind but never catches up. */
  lemma {:induction false} TicksWithinElapsedTime(g: Game, n: int, frames: seq<FrameInput>)
    requires n > 0 && g.sinceLastTick >= 0 && AllWellFormed(frames, n)
    ensures TickCount(g, n, frames) * TickLength + Run(g, n, frames).sinceLastTick
      <= g.sinceLastTick + TotalTime(frames)
    ensures Run(g, n, frames).sinceLastTick >= 0
    decreases |frames|
  {
    if frames == [] {
    } else if !g.running {
      NonNegativeTime(frames);
    } else {
      var f := frames[0];
      var g' := FrameStep(g, n, f);
      FrameAccumulator(g, n, f);
      assert AllWellFormed(frames[1..], n) by {
        forall i | 0 <= i < |frames[1..]| ensures WellFormed(frames[1..][i], n) {
          assert frames[1..][i] == frames[i + 1];
        }
      }
      assert WellFormed(f, n);
      TicksWithinElapsedTime(g', n, frames[1..]);
      HandleEventsFrame(g, f.events);
    }
  }

  lemma {:induction false} NonNegativeTime(frames: seq<FrameInput>)
    requires forall i :: 0 <= i < |frames| ==> frames[i].dt >= 0
    ensures TotalTime(frames) >= 0
    decreases |frames|
  {
    if frames != [] {
      assert forall i :: 0 <= i < |frames[1..]| ==> frames[1..][i] == frames[i + 1];
      NonNegativeTime(frames[1..]);
    }
  }

  /** The clock reports 60, 60 and 10 milliseconds and then 20. The gate is
      checked before a frame's time is added, so the tick fires in the fourth
      frame, and the accumulator then holds that frame's 20 milliseconds,
      not the 5 by which the first three frames passed the tick length. */
  lemma ClockExample(food: Coord)
    requires InGrid(food, DefaultGridSize)
    ensures var g := Initial(food);
      var fs := [FrameInput([], 60, food), FrameInput([], 60, food), FrameInput([], 10, food)];
      var f4 := FrameInput([], 20, food);
      TickCount(g, DefaultGridSize, fs) == 0
      && Run(g, DefaultGridSize, fs).sinceLastTick == 130
      && TickCount(g, DefaultGridSize, fs + [f4]) == 1
      && Run(g, DefaultGridSize, fs + [f4]).sinceLastTick == 20
  {
    var n := DefaultGridSize;
    var a, b, c, d := FrameInput([], 60, food), FrameInput([], 60, food), FrameInput([], 10, food), FrameInput([], 20, food);
    var g0 := Initial(food);
    var g1, g2, g3 := g0.(sinceLastTick := 60), g0.(sinceLastTick := 120), g0.(sinceLastTick := 130);
    assert FrameStep(g0, n, a) == g1 && FrameStep(g1, n, b) == g2 && FrameStep(g2, n, c) == g3;
    var g4 := FrameStep(g3, n, d);
    assert Fires(HandleEvents(g3, [])) && g4.sinceLastTick == 20;
    assert [a, b, c][1..] == [b, c] && [b, c][1..] == [c] && [c][1..] == [];
    assert [a, b, c, d][1..] == [b, c, d] && [b, c, d][1..] == [c, d] && [c, d][1..] == [d] && [d][1..] == [];
    assert Run(g3, n, [c][1..]) == g3 && TickCount(g3, n, [c][1..]) == 0;
    assert Run(g2, n, [c]) == g3 && TickCount(g2, n, [c]) == 0;
    assert Run(g1, n, [b, c]) == g3 && TickCount(g1, n, [b, c]) == 0;
    assert Run(g0, n, [a, b, c]) == g3 && TickCount(g0, n, [a, b, c]) == 0;
    assert Run(g4, n, [d][1..]) == g4 && TickCount(g4, n, [d][1..]) == 0;
    assert Run(g3, n, [d]) == g4 && TickCount(g3, n, [d]) == 1;
    assert Run(g2, n, [c, d]) == g4 && TickCount(g2, n, [c, d]) == 1;
    assert Run(g1, n, [b, c, d]) == g4 && TickCount(g1, n, [b, c, d]) == 1;
    assert Run(g0, n, [a, b, c, d]) == g4 && TickCount(g0, n, [a, b, c, d]) == 1;
    assert [a, b, c] + [d] == [a, b, c, d];
  }

  /** A frame that starts with eight ticks' worth of time still runs a single
      tick, and the surplus is dropped. */
  lemma NoCatchUp(g: Game, f: FrameInput)
    requires g.running && !g.gameOver && g.sinceLastTick == 8 * TickLength
    requires f.events == [] && f.dt >= 0
    ensures TickCount(g, DefaultGridSize, [f]) == 1
    ensures Run(g, DefaultGridSize, [f]).sinceLastTick == f.dt
  {
  }
}
