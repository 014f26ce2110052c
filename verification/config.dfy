/** The fixed parameters of the Breakout game. Every quantity of the game is
    an integer number of pixels (or points), so the whole model works on `int`. */
module Config {

  /** Dimensions of the brick grid and of one brick. */
  const Rows: int := 6
  const Cols: int := 10
  const BrickWidth: int := 50
  const BrickHeight: int := 20

  /** The paddle; its height only matters to the display. */
  const PaddleWidth: int := 100
  const PaddleHeight: int := 10

  /** The ball radius and the square play field. */
  const BallRadius: int := 10
  const FieldWidth: int := 600
  const FieldHeight: int := 600

  /** The height at which the ball meets the paddle, before subtracting the ball radius. */
  const PaddleLine: int := 580

  /** One paddle command moves the paddle this far. */
  const PaddleStep: int := 20

  /** Points for each destroyed brick. */
  const BrickReward: int := 10

  /** The right-most position the paddle may take. */
  const MaxPaddleX: int := FieldWidth - PaddleWidth

  /** The starting snapshot: paddle offset, ball position and velocity. */
  const StartPaddleX: int := 250
  const StartX: int := 300
  const StartY: int := 400
  const StartDx: int := 2
  const StartDy: int := -2
}
