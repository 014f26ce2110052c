# Breakout engine model

A Dafny model of the game logic inside the `BreakoutGame` component
(`app/page.tsx`): a 6 × 10 grid of 50 × 20 bricks, a 100-wide paddle moved
20 units per key press, a ball of radius 10 moving 2 units per axis per tick in
a 600 × 600 field, a score of 10 per brick, and a game-over flag. Every
quantity in the source is an integer, so the model works on `int` exactly.

The game is one immutable snapshot `Engine.State` (bricks, paddle offset, ball,
score, game-over flag) and pure functions over it:

- `Bricks.CreateBricks` builds the grid; `Bricks.StrikeGrid` is the brick scan of
  one tick; `Bricks.GridHits` / `Bricks.GridDestroyed` count hits and destroyed
  bricks.
- `Paddle.MovePaddle` is one LEFT or RIGHT command.
- `Engine.Init` is the starting snapshot (also what a restart produces),
  `Engine.Advance` is one tick of `updateBall`, `Engine.Step` applies one command
  (`Move`, `Tick`, `Restart`) with the game-over guards, `Engine.Run` a sequence
  of them.
- `Properties` holds the state invariant and the lemmas across ticks.

Modules: `Config` (constants), `Bricks`, `Paddle`, `Engine`, `Properties`, one
file each.

**Sequential reading of the tick.** In the source, the brick scan and the score
increments are issued as nested state updaters inside the ball updater
(app/page.tsx:71-88). The UI framework defers those, so the `hitBrick` flag read
at line 89 would not see them. The model reads `updateBall` sequentially: the
scan finishes, the score is credited and then the flag is read, all within
the same tick.

**The brick scan.**
- The scan does not stop at the first matching brick in row-major order. The
  code maps over every brick, destroys each one that matches and adds 10 for
  each. The model does the same. `Bricks.ContainsUnique` shows that the open
  rectangles of a laid-out grid are pairwise disjoint, and
  `Bricks.AtMostOneBrickHit` concludes that one scan hits at most one brick.
  So a first-match reading would give the same result.
- On the tick that ends the game, the code runs the brick scan before its
  bottom-exit test. The model keeps that order. `Properties.GameOverTick` proves
  that no brick can be hit on that tick.

**Behaviour of the code as written.** The paddle test does not check
which way the ball is moving. A ball that is already below the paddle line and
over the paddle therefore has its vertical velocity flipped on every tick. It
oscillates on the paddle (`Properties.PaddleTrapsRisingBall`). The model keeps
this behaviour.

## Model

| member | source | states |
|---|---|---|
| Bricks.CreateBricks | app/page.tsx:20-28 | the fresh grid has exactly 6 rows of 10 bricks; brick (r, c) is at (c·50, r·20); no brick is destroyed; so it counts zero destroyed bricks |
| Bricks.StrikeGrid | app/page.tsx:71-88 | the scan keeps the grid's shape and every brick position; a brick ends up destroyed iff it was already destroyed or it was standing and its open rectangle strictly contains the candidate point; any brick that changes was such a hit |
| Bricks.GridHitsExist | app/page.tsx:70-89 | the per-tick hit counter is positive iff some standing brick strictly contains the candidate point, so `hitBrick` is set exactly then |
| Bricks.StrikeGridCount | app/page.tsx:81-83 | the scan increases the number of destroyed bricks by exactly the number of hits it credits |
| Bricks.ContainsUnique | app/page.tsx:74-80 | in the laid-out grid, two bricks whose open rectangles both contain one point are the same brick |
| Bricks.AtMostOneBrickHit | app/page.tsx:74-80 | in the laid-out grid one scan hits at most one brick |
| Bricks.NoHitBelowGrid | app/page.tsx:74-80 | a candidate point at or below the last row of bricks hits nothing; the scan leaves the grid unchanged and credits nothing |
| Bricks.DestroyedBound | app/page.tsx:20-28 | a laid-out grid never counts more than 60 destroyed bricks |
| Paddle.MovePaddle | app/page.tsx:38-47 | LEFT never goes below 0 and RIGHT never goes above 500, from any start. From a start in [0, 500]: the result stays in [0, 500] and equals the start ± 20 clamped to [0, 500]. It moves at most 20, in the command's direction. It stays put iff the paddle already touches that wall |
| Engine.Init | app/page.tsx:31-35 | the starting snapshot has the full, undamaged grid, score 0 and no game over. The paddle is at 250, centred on the field. The ball is at (300, 400) with velocity (2, −2) |
| Engine.Advance | app/page.tsx:50-98 | the paddle does not move. Game over is set iff the candidate y exceeds 590, and then the ball is returned unchanged. Otherwise each velocity component is kept or negated, and the ball moves by the new velocity. dx is negated iff the candidate x is below 10 or above 590. dy is negated iff the candidate y is below 10, or it exceeds 570 with the current x strictly inside the paddle, or a brick is hit. Several triggers still give a single negation. The bricks are the scan's result. The score grows by 10 per newly destroyed brick and never decreases |
| Engine.Step | app/page.tsx:101-130 | restart yields the initial snapshot from any state. While the game is over, a key press or a tick leaves the state unchanged. A key press changes only the paddle, via one paddle move. A tick of a running game is one `Advance` |
| Properties.StepInv | app/page.tsx:38-107 | every command keeps the invariant: the grid layout, the paddle in [0, 500], the ball speed ±2 on both axes, the ball x in [10, 590], and score = 10 × destroyed bricks |
| Properties.RunInv | app/page.tsx:38-130 | any sequence of commands keeps that invariant |
| Properties.Reachable | app/page.tsx:31-130 | from the start, after any commands, score = 10 × destroyed bricks, 0 ≤ score ≤ 600, and the paddle is in [0, 500] |
| Properties.BricksMonotone | app/page.tsx:71-88 | without a restart, destroyed flags only go from false to true, the grid keeps its shape, and the score never decreases |
| Properties.AtMostOneBrickPerTick | app/page.tsx:70-88 | in a laid-out grid one tick destroys at most one brick. The score rises by at most 10. At most one brick differs between the grids before and after the tick |
| Properties.GameOverTick | app/page.tsx:91-95 | when the candidate y exceeds 590, the tick only sets game over. Ball, bricks, score and paddle are unchanged |
| Properties.TerminalFreeze | app/page.tsx:112-130 | once the game is over, any sequence of key presses and ticks without a restart leaves the whole snapshot unchanged |
| Properties.FirstTick | app/page.tsx:31-97 | from the start, one tick gives ball (302, 398, 2, −2). Bricks, score, paddle and flag are unchanged |
| Properties.BrickHitScenario | app/page.tsx:69-97 | a ball at (125, 32) moving (2, 2) destroys brick (1, 2) alone. It scores 10 and continues as (127, 30, 2, −2) |
| Properties.GameOverScenario | app/page.tsx:91-95 | a ball at (100, 590) moving down, away from the paddle, ends the game with the ball frozen. A further tick changes nothing |
| Properties.PaddleTrapsRisingBall | app/page.tsx:61-67 | a ball at (300, 578) rising over the paddle at 250 is sent down to (302, 580). The next tick sends it up to (304, 578) again, without ending the game |

## Left out

- Rendering (app/page.tsx:132-218): presentation only. For the same reason,
  `PADDLE_HEIGHT` appears only as a constant.
- State hooks, callback memoisation and effect dependency arrays: the state is
  one explicit record and each command is one pure step. The deferred
  scheduling of the nested brick and score updaters (app/page.tsx:71-88) is
  replaced by the sequential reading described above.
- The 10 ms interval timer (app/page.tsx:125-130): only the fact that no tick
  runs while the game is over is modelled, as `Engine.Step` ignoring `Tick`.
- Keyboard wiring and key-name matching (app/page.tsx:110-123): abstracted to
  the commands `Move(Left)`, `Move(Right)` and `Restart`. A key press that is
  neither arrow changes nothing and is not modelled.
- Floating point: every quantity in the source is an integer, so `int` is exact.
- No win condition exists in the source, and none is added.
