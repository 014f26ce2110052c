/** The paddle: one key press moves it a fixed step to the left or right,
    clamped to the field. */
module Paddle {
  import opened Config

  datatype Direction = Left | Right

  /** The signed displacement one command asks for. */
  function Offset(d: Direction): int {
    match d
    case Left => -PaddleStep
    case Right => PaddleStep
  }

  /** The value of [lo, hi] nearest to v; a reference definition of clamping. */
  function Clamp(v: int, lo: int, hi: int): (r: int)
    requires lo <= hi
    ensures lo <= r <= hi
    ensures lo <= v <= hi ==> r == v
    ensures v < lo ==> r == lo
    ensures v > hi ==> r == hi
  {
    if v < lo then lo else if v > hi then hi else v
  }

  /** The paddle offset after one command. The left move only guards the left
      edge and the right move only the right edge. From an in-range offset the
      result is the clamped target, moves at most one step, in the command's
      own direction, and stays put exactly when the paddle already touches
      the wall on that side. */
  function MovePaddle(p: int, d: Direction): (r: int)
    ensures d == Left ==> r >= 0
    ensures d == Right ==> r <= MaxPaddleX
    ensures 0 <= p <= MaxPaddleX ==> 0 <= r <= MaxPaddleX
    ensures 0 <= p <= MaxPaddleX ==> r == Clamp(p + Offset(d), 0, MaxPaddleX)
    ensures 0 <= p <= MaxPaddleX ==> -PaddleStep <= r - p <= PaddleStep
    ensures 0 <= p <= MaxPaddleX ==> (d == Left ==> r <= p) && (d == Right ==> r >= p)
    ensures 0 <= p <= MaxPaddleX ==>
              (r == p <==> (d == Left && p == 0) || (d == Right && p == MaxPaddleX))
  {
    match d
    case Left => if p - PaddleStep < 0 then 0 else p - PaddleStep
    case Right => if p + PaddleStep > MaxPaddleX then MaxPaddleX else p + PaddleStep
  }
}
