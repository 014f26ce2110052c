/** Properties of the engine across ticks and commands: the state invariant,
    the score bookkeeping, the terminal freeze and a few concrete scenarios. */
module Properties {
  import opened Config
  import opened Bricks
  import opened Paddle
  import opened Engine

  /** What every state reachable from the start satisfies: the grid keeps its
      layout, the paddle stays on the field, the ball keeps its speed of 2 on
      both axes and stays between the side walls, and the score is exactly
      the reward for every destroyed brick. */
  predicate Inv(s: State) {
    && Layout(s.bricks)
    && 0 <= s.paddleX <= MaxPaddleX
    && (s.ball.dx == 2 || s.ball.dx == -2)
    && (s.ball.dy == 2 || s.ball.dy == -2)
    && BallRadius <= s.ball.x <= FieldWidth - BallRadius
    && s.score == BrickReward * GridDestroyed(s.bricks)
  }

  lemma InitInv()
    ensures Inv(Init())
  {
  }

  /** One tick keeps the invariant. */
  lemma AdvanceInv(s: State)
    requires Inv(s)
    ensures Inv(Advance(s))
  {
  }

  /** Every command keeps the invariant. */
  lemma StepInv(s: State, cmd: Command)
    requires Inv(s)
    ensures Inv(Step(s, cmd))
  {
    match cmd
    case Restart => InitInv();
    case Move(d) =>
    case Tick => if !s.gameOver { AdvanceInv(s); }
  }

  lemma {:induction false} RunInv(s: State, cmds: seq<Command>)
    requires Inv(s)
    ensures Inv(Run(s, cmds))
    decreases |cmds|
  {
    if |cmds| > 0 {
      StepInv(s, cmds[0]);
      RunInv(Step(s, cmds[0]), cmds[1..]);
    }
  }

  /** From the start, whatever the commands, the score is ten points per
      destroyed brick, the paddle is on the field, and the score never
      exceeds the reward for the whole grid. */
  lemma Reachable(cmds: seq<Command>)
    ensures Run(Init(), cmds).score == BrickReward * GridDestroyed(Run(Init(), cmds).bricks)
    ensures 0 <= Run(Init(), cmds).paddleX <= MaxPaddleX
    ensures 0 <= Run(Init(), cmds).score <= BrickReward * Rows * Cols
  {
    InitInv();
    RunInv(Init(), cmds);
    DestroyedBound(Run(Init(), cmds).bricks);
  }

  /** Destroyed flags only go from false to true within a run that does not
      restart. */
  predicate NoRestart(cmds: seq<Command>) {
    forall i :: 0 <= i < |cmds| ==> !cmds[i].Restart?
  }

  predicate DestroyedGrows(g: Grid, g': Grid) {
    && |g'| == |g|
    && (forall r :: 0 <= r < |g| ==> |g'[r]| == |g[r]|)
    && (forall r, c :: 0 <= r < |g| && 0 <= c < |g[r]| && g[r][c].destroyed ==> g'[r][c].destroyed)
  }

  lemma {:induction false} BricksMonotone(s: State, cmds: seq<Command>)
    requires NoRestart(cmds)
    ensures DestroyedGrows(s.bricks, Run(s, cmds).bricks)
    ensures Run(s, cmds).score >= s.score
    decreases |cmds|
  {
    if |cmds| > 0 {
      var s1 := Step(s, cmds[0]);
      assert DestroyedGrows(s.bricks, s1.bricks);
      BricksMonotone(s1, cmds[1..]);
      var sn := Run(s, cmds);
      assert DestroyedGrows(s1.bricks, sn.bricks);
    }
  }

  /** In a laid-out grid a tick destroys at most one brick and so scores at
      most one reward, even though the scan visits every brick. */
  lemma AtMostOneBrickPerTick(s: State)
    requires Layout(s.bricks)
    ensures GridDestroyed(Advance(s).bricks) <= GridDestroyed(s.bricks) + 1
    ensures Advance(s).score <= s.score + BrickReward
    ensures forall r1, c1, r2, c2 ::
              (0 <= r1 < |s.bricks| && 0 <= c1 < |s.bricks[r1]| &&
               0 <= r2 < |s.bricks| && 0 <= c2 < |s.bricks[r2]| &&
               Advance(s).bricks[r1][c1] != s.bricks[r1][c1] &&
               Advance(s).bricks[r2][c2] != s.bricks[r2][c2]) ==> r1 == r2 && c1 == c2
  {
    var b := s.ball;
    var cx, cy := b.x + b.dx, b.y + b.dy;
    AtMostOneBrickHit(s.bricks, cx, cy);
    StrikeGridCount(s.bricks, cx, cy);
    forall r1, c1, r2, c2 |
      0 <= r1 < |s.bricks| && 0 <= c1 < |s.bricks[r1]| &&
      0 <= r2 < |s.bricks| && 0 <= c2 < |s.bricks[r2]| &&
      Advance(s).bricks[r1][c1] != s.bricks[r1][c1] &&
      Advance(s).bricks[r2][c2] != s.bricks[r2][c2]
      ensures r1 == r2 && c1 == c2
    {
      ContainsUnique(s.bricks, r1, c1, r2, c2, cx, cy);
    }
  }

  /** The tick on which the ball is lost sets the game-over flag and changes
      nothing else: the bricks lie far above the bottom edge, so the scan that
      precedes the test cannot hit one. */
  lemma GameOverTick(s: State)
    requires Layout(s.bricks)
    requires FallsOut(s.ball.y + s.ball.dy)
    ensures Advance(s) == s.(gameOver := true)
  {
    NoHitBelowGrid(s.bricks, s.ball.x + s.ball.dx, s.ball.y + s.ball.dy);
  }

  /** Once the game is over, every command but restart leaves the whole
      snapshot (ball, bricks, score and paddle) exactly as it was. */
  lemma {:induction false} TerminalFreeze(s: State, cmds: seq<Command>)
    requires s.gameOver
    requires NoRestart(cmds)
    ensures Run(s, cmds) == s
    decreases |cmds|
  {
    if |cmds| > 0 {
      assert !cmds[0].Restart?;
      TerminalFreeze(s, cmds[1..]);
    }
  }

  /** The first tick from the start: no wall, paddle or brick is near, so the
      ball just moves one step up and to the right. */
  lemma FirstTick()
    ensures Step(Init(), Tick) == Init().(ball := Ball(302, 398, 2, -2))
  {
    NoHitBelowGrid(Init().bricks, 302, 398);
  }

  /** A ball whose next position lies inside brick (1, 2) knocks out that
      brick alone, earns one reward and turns back up. */
  lemma BrickHitScenario()
    ensures var s := Init().(ball := Ball(125, 32, 2, 2));
            var r := Advance(s);
            && r.bricks[1][2].destroyed
            && (forall i, j :: 0 <= i < Rows && 0 <= j < Cols && (i, j) != (1, 2) ==>
                  r.bricks[i][j] == s.bricks[i][j])
            && r.score == BrickReward
            && r.ball == Ball(127, 30, 2, -2)
            && !r.gameOver
  {
    var s := Init().(ball := Ball(125, 32, 2, 2));
    var g := s.bricks;
    assert Hit(g[1][2], 127, 34);
    AtMostOneBrickHit(g, 127, 34);
    GridHitsExist(g, 127, 34);
    forall i, j | 0 <= i < Rows && 0 <= j < Cols && (i, j) != (1, 2)
      ensures !Hit(g[i][j], 127, 34)
    {
      if Hit(g[i][j], 127, 34) {
        ContainsUnique(g, i, j, 1, 2, 127, 34);
      }
    }
  }

  /** A falling ball that misses the paddle ends the game with the ball frozen
      where it was. */
  lemma GameOverScenario()
    ensures var s := Init().(ball := Ball(100, 590, 2, 2));
            && Step(s, Tick).gameOver
            && Step(s, Tick).ball == s.ball
            && Step(Step(s, Tick), Tick) == Step(s, Tick)
  {
    var s := Init().(ball := Ball(100, 590, 2, 2));
    GameOverTick(s);
  }

  /** The paddle test does not look at the direction of travel: a ball that
      is already below the paddle line and rising over the paddle is sent
      down again, and the next tick sends it back up, so it oscillates on the
      paddle instead of leaving it. */
  lemma PaddleTrapsRisingBall()
    ensures var s := Init().(ball := Ball(300, 578, 2, -2));
            && Advance(s).ball == Ball(302, 580, 2, 2)
            && Advance(Advance(s)).ball == Ball(304, 578, 2, -2)
            && !Advance(Advance(s)).gameOver
  {
    var s := Init().(ball := Ball(300, 578, 2, -2));
    NoHitBelowGrid(s.bricks, 302, 576);
    NoHitBelowGrid(s.bricks, 304, 582);
  }
}
