/** The game engine: one snapshot of the whole game, the tick that moves the
    ball, and the commands that drive it.

    The source updates the ball inside a state updater and, nested in it,
    updates the bricks and the score through further deferred updaters
    (app/page.tsx:71-88). Under the UI framework those nested updaters run
    later, so the `hitBrick` flag read at line 89 would still be false. This
    model fixes the sequential reading instead: the brick scan finishes, and
    the score is credited, before the flag is read, all within one tick. */
module Engine {
  import opened Config
  import opened Bricks
  import opened Paddle

  /** Ball centre and velocity. */
  datatype Ball = Ball(x: int, y: int, dx: int, dy: int)

  /** The whole game in one snapshot. */
  datatype State = State(bricks: Grid, paddleX: int, ball: Ball, score: int, gameOver: bool)

  /** The starting snapshot, which a restart also produces. */
  function Init(): (s: State)
    ensures Layout(s.bricks) && Intact(s.bricks) && GridDestroyed(s.bricks) == 0
    ensures s.score == 0 && !s.gameOver
    ensures 0 <= s.paddleX <= MaxPaddleX
    ensures s.paddleX + PaddleWidth / 2 == FieldWidth / 2
    ensures s.ball.dx != 0 && s.ball.dy != 0
    ensures s.paddleX == 250 && s.ball == Ball(300, 400, 2, -2)
  {
    State(CreateBricks(), StartPaddleX, Ball(StartX, StartY, StartDx, StartDy), 0, false)
  }

  /** The candidate position is past the left or right wall (the ball's edge
      would cross it). */
  predicate HitsSideWall(cx: int) {
    cx < BallRadius || cx > FieldWidth - BallRadius
  }

  /** The candidate position is past the top wall. */
  predicate HitsTopWall(cy: int) {
    cy < BallRadius
  }

  /** The candidate height reaches the paddle while the ball's CURRENT x lies
      strictly inside the paddle's span. */
  predicate OnPaddle(paddleX: int, x: int, cy: int) {
    cy > PaddleLine - BallRadius && paddleX < x < paddleX + PaddleWidth
  }

  /** The candidate position is past the bottom edge: the ball is lost. */
  predicate FallsOut(cy: int) {
    cy > FieldHeight - BallRadius
  }

  /** One tick of the ball. Every collision test uses the candidate position
      (x + dx, y + dy) except the paddle's span test, which uses the current x.
      Each vertical trigger sets the new dy to the negation of the OLD dy, so
      several of them in one tick still negate it once. The brick scan and the
      score run before the game-over test, as in the source; on the tick the
      ball is lost, the old ball is kept. */
  function Advance(s: State): (r: State)
    ensures r.paddleX == s.paddleX
    ensures r.gameOver <==> s.gameOver || FallsOut(s.ball.y + s.ball.dy)
    ensures FallsOut(s.ball.y + s.ball.dy) ==> r.ball == s.ball
    ensures !FallsOut(s.ball.y + s.ball.dy) ==>
              && (r.ball.dx == s.ball.dx || r.ball.dx == -s.ball.dx)
              && (r.ball.dy == s.ball.dy || r.ball.dy == -s.ball.dy)
              && r.ball.x == s.ball.x + r.ball.dx
              && r.ball.y == s.ball.y + r.ball.dy
    ensures !FallsOut(s.ball.y + s.ball.dy) && s.ball.dx != 0 ==>
              (r.ball.dx == -s.ball.dx <==> HitsSideWall(s.ball.x + s.ball.dx))
    ensures !FallsOut(s.ball.y + s.ball.dy) && s.ball.dy != 0 ==>
              (r.ball.dy == -s.ball.dy <==>
                 || HitsTopWall(s.ball.y + s.ball.dy)
                 || OnPaddle(s.paddleX, s.ball.x, s.ball.y + s.ball.dy)
                 || AnyHit(s.bricks, s.ball.x + s.ball.dx, s.ball.y + s.ball.dy))
    ensures r.bricks == StrikeGrid(s.bricks, s.ball.x + s.ball.dx, s.ball.y + s.ball.dy)
    ensures r.score == s.score + BrickReward * (GridDestroyed(r.bricks) - GridDestroyed(s.bricks))
    ensures r.score >= s.score
  {
    var b := s.ball;
    var cx := b.x + b.dx;
    var cy := b.y + b.dy;
    // walls
    var newDx := if HitsSideWall(cx) then -b.dx else b.dx;
    var dyWall := if HitsTopWall(cy) then -b.dy else b.dy;
    // paddle
    var dyPaddle := if OnPaddle(s.paddleX, b.x, cy) then -b.dy else dyWall;
    // bricks: every hit brick is destroyed and credited
    var hits := GridHits(s.bricks, cx, cy);
    var bricks' := StrikeGrid(s.bricks, cx, cy);
    var score' := s.score + BrickReward * hits;
    var newDy := if hits > 0 then -b.dy else dyPaddle;
    StrikeGridCount(s.bricks, cx, cy);
    GridHitsExist(s.bricks, cx, cy);
    if FallsOut(cy) then
      State(bricks', s.paddleX, b, score', true)
    else
      State(bricks', s.paddleX, Ball(b.x + newDx, b.y + newDy, newDx, newDy), score', s.gameOver)
  }

  /** The discrete inputs: a paddle key, a timer tick, the restart button. */
  datatype Command = Move(dir: Direction) | Tick | Restart

  /** One command. While the game is over, key presses are ignored and no tick
      is scheduled; only a restart changes the state. */
  function Step(s: State, cmd: Command): (r: State)
    ensures cmd.Restart? ==> r == Init()
    ensures s.gameOver && !cmd.Restart? ==> r == s
    ensures cmd.Move? ==>
              r.ball == s.ball && r.bricks == s.bricks && r.score == s.score && r.gameOver == s.gameOver
    ensures cmd.Move? && !s.gameOver ==> r.paddleX == MovePaddle(s.paddleX, cmd.dir)
    ensures cmd.Tick? && !s.gameOver ==> r == Advance(s)
  {
    match cmd
    case Restart => Init()
    case Move(d) => if s.gameOver then s else s.(paddleX := MovePaddle(s.paddleX, d))
    case Tick => if s.gameOver then s else Advance(s)
  }

  /** A sequence of commands, applied in order. */
  function Run(s: State, cmds: seq<Command>): State
    decreases |cmds|
  {
    if |cmds| == 0 then s else Run(Step(s, cmds[0]), cmds[1..])
  }
}
