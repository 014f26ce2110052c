/** The brick grid: its construction, the collision test of one tick, and the
    counting facts that tie score to destroyed bricks. */
module Bricks {
  import opened Config

  /** A brick's top-left corner and whether it has been knocked out. Only
      `destroyed` ever changes. */
  datatype Brick = Brick(x: int, y: int, destroyed: bool)

  /** Rows of bricks, each row a sequence of columns, as the game stores them. */
  type Grid = seq<seq<Brick>>

  /** The grid has `Rows` rows of `Cols` bricks, brick (r, c) sitting at
      (c * BrickWidth, r * BrickHeight). Its destroyed flags are free. */
  predicate Layout(g: Grid) {
    && |g| == Rows
    && (forall r :: 0 <= r < |g| ==> |g[r]| == Cols)
    && (forall r, c :: 0 <= r < |g| && 0 <= c < |g[r]| ==>
          g[r][c].x == c * BrickWidth && g[r][c].y == r * BrickHeight)
  }

  /** No brick of the grid is destroyed. */
  predicate Intact(g: Grid) {
    forall r, c :: 0 <= r < |g| && 0 <= c < |g[r]| ==> !g[r][c].destroyed
  }

  /** A fresh grid: every brick in place and standing. */
  function CreateBricks(): (g: Grid)
    ensures Layout(g)
    ensures Intact(g)
    ensures GridDestroyed(g) == 0
  {
    var g := seq(Rows, row => seq(Cols, col => Brick(col * BrickWidth, row * BrickHeight, false)));
    IntactCount(g);
    g
  }

  /** The point (px, py) lies strictly inside the brick's rectangle. */
  predicate Contains(b: Brick, px: int, py: int) {
    b.x < px < b.x + BrickWidth && b.y < py < b.y + BrickHeight
  }

  /** A standing brick that strictly contains (px, py) is hit. */
  predicate Hit(b: Brick, px: int, py: int) {
    !b.destroyed && Contains(b, px, py)
  }

  /** Some brick of the grid is hit by the point (px, py). */
  predicate AnyHit(g: Grid, px: int, py: int) {
    exists r, c :: 0 <= r < |g| && 0 <= c < |g[r]| && Hit(g[r][c], px, py)
  }

  /** The brick after the scan of one tick. */
  function Strike(b: Brick, px: int, py: int): Brick {
    if Hit(b, px, py) then b.(destroyed := true) else b
  }

  function StrikeRow(row: seq<Brick>, px: int, py: int): seq<Brick> {
    seq(|row|, i requires 0 <= i < |row| => Strike(row[i], px, py))
  }

  /** The scan over every brick of every row: each hit brick is destroyed;
      every other brick, and every position, stays as it was. */
  function StrikeGrid(g: Grid, px: int, py: int): (g': Grid)
    ensures |g'| == |g|
    ensures forall r :: 0 <= r < |g| ==> |g'[r]| == |g[r]|
    ensures forall r, c :: 0 <= r < |g| && 0 <= c < |g[r]| ==>
              g'[r][c].x == g[r][c].x && g'[r][c].y == g[r][c].y
    ensures forall r, c :: 0 <= r < |g| && 0 <= c < |g[r]| ==>
              (g'[r][c].destroyed <==> g[r][c].destroyed || Hit(g[r][c], px, py))
    ensures forall r, c :: 0 <= r < |g| && 0 <= c < |g[r]| && g'[r][c] != g[r][c] ==>
              Hit(g[r][c], px, py)
  {
    seq(|g|, r requires 0 <= r < |g| => StrikeRow(g[r], px, py))
  }

  /** How many bricks of a row, and of the grid, the scan hits; the game adds
      one reward per hit. */
  function RowHits(row: seq<Brick>, px: int, py: int): nat {
    if |row| == 0 then 0
    else (if Hit(row[0], px, py) then 1 else 0) + RowHits(row[1..], px, py)
  }

  function GridHits(g: Grid, px: int, py: int): nat {
    if |g| == 0 then 0 else RowHits(g[0], px, py) + GridHits(g[1..], px, py)
  }

  /** How many bricks are destroyed. */
  function RowDestroyed(row: seq<Brick>): nat {
    if |row| == 0 then 0
    else (if row[0].destroyed then 1 else 0) + RowDestroyed(row[1..])
  }

  function GridDestroyed(g: Grid): nat {
    if |g| == 0 then 0 else RowDestroyed(g[0]) + GridDestroyed(g[1..])
  }

  /** A grid with no destroyed brick counts zero destroyed bricks. */
  lemma {:induction false} IntactCount(g: Grid)
    requires Intact(g)
    ensures GridDestroyed(g) == 0
  {
    if |g| > 0 {
      IntactRowCount(g[0]);
      assert Intact(g[1..]) by {
        forall r, c | 0 <= r < |g[1..]| && 0 <= c < |g[1..][r]|
          ensures !g[1..][r][c].destroyed
        {
          assert g[1..][r] == g[r + 1];
        }
      }
      IntactCount(g[1..]);
    }
  }

  lemma {:induction false} IntactRowCount(row: seq<Brick>)
    requires forall i :: 0 <= i < |row| ==> !row[i].destroyed
    ensures RowDestroyed(row) == 0
  {
    if |row| > 0 {
      assert forall i :: 0 <= i < |row[1..]| ==> row[1..][i] == row[i + 1];
      IntactRowCount(row[1..]);
    }
  }

  /** The hit counter of a row is positive exactly when some brick of it is hit. */
  lemma {:induction false} RowHitsExist(row: seq<Brick>, px: int, py: int)
    ensures RowHits(row, px, py) > 0 <==> exists i :: 0 <= i < |row| && Hit(row[i], px, py)
  {
    if |row| > 0 {
      var t := row[1..];
      RowHitsExist(t, px, py);
      if exists i :: 0 <= i < |row| && Hit(row[i], px, py) {
        var i :| 0 <= i < |row| && Hit(row[i], px, py);
        if i > 0 {
          assert t[i - 1] == row[i];
        }
      }
      if exists j :: 0 <= j < |t| && Hit(t[j], px, py) {
        var j :| 0 <= j < |t| && Hit(t[j], px, py);
        assert row[j + 1] == t[j];
      }
    }
  }

  /** The hit counter of the grid is positive exactly when some brick is hit. */
  lemma {:induction false} GridHitsExist(g: Grid, px: int, py: int)
    ensures GridHits(g, px, py) > 0 <==> AnyHit(g, px, py)
  {
    if |g| > 0 {
      var t := g[1..];
      RowHitsExist(g[0], px, py);
      GridHitsExist(t, px, py);
      if AnyHit(g, px, py) {
        var r, c :| 0 <= r < |g| && 0 <= c < |g[r]| && Hit(g[r][c], px, py);
        if r > 0 {
          assert t[r - 1] == g[r];
        }
      }
      if AnyHit(t, px, py) {
        var r, c :| 0 <= r < |t| && 0 <= c < |t[r]| && Hit(t[r][c], px, py);
        assert g[r + 1] == t[r];
      }
    }
  }

  /** The scan destroys exactly the bricks it counts as hit. */
  lemma {:induction false} StrikeRowCount(row: seq<Brick>, px: int, py: int)
    ensures RowDestroyed(StrikeRow(row, px, py)) == RowDestroyed(row) + RowHits(row, px, py)
  {
    if |row| > 0 {
      assert StrikeRow(row, px, py)[1..] == StrikeRow(row[1..], px, py);
      StrikeRowCount(row[1..], px, py);
    }
  }

  lemma {:induction false} StrikeGridCount(g: Grid, px: int, py: int)
    ensures GridDestroyed(StrikeGrid(g, px, py)) == GridDestroyed(g) + GridHits(g, px, py)
  {
    if |g| > 0 {
      assert StrikeGrid(g, px, py)[1..] == StrikeGrid(g[1..], px, py);
      StrikeRowCount(g[0], px, py);
      StrikeGridCount(g[1..], px, py);
    }
  }

  /** A scan that hits nothing changes nothing. */
  lemma StrikeWithoutHit(g: Grid, px: int, py: int)
    requires !AnyHit(g, px, py)
    ensures StrikeGrid(g, px, py) == g
    ensures GridHits(g, px, py) == 0
  {
    GridHitsExist(g, px, py);
    var g' := StrikeGrid(g, px, py);
    forall r | 0 <= r < |g|
      ensures g'[r] == g[r]
    {
      assert forall c :: 0 <= c < |g[r]| ==> g'[r][c] == g[r][c];
    }
  }

  /** A row in which at most one brick is hit counts at most one hit. */
  lemma {:induction false} AtMostOneRowHit(row: seq<Brick>, px: int, py: int)
    requires forall i, j ::
               (0 <= i < |row| && 0 <= j < |row| && Hit(row[i], px, py) && Hit(row[j], px, py)) ==> i == j
    ensures RowHits(row, px, py) <= 1
  {
    if |row| > 0 {
      var t := row[1..];
      forall i, j | 0 <= i < |t| && 0 <= j < |t| && Hit(t[i], px, py) && Hit(t[j], px, py)
        ensures i == j
      {
        assert row[i + 1] == t[i] && row[j + 1] == t[j];
      }
      AtMostOneRowHit(t, px, py);
      if Hit(row[0], px, py) {
        forall i | 0 <= i < |t|
          ensures !Hit(t[i], px, py)
        {
          assert row[i + 1] == t[i];
        }
        RowHitsExist(t, px, py);
      }
    }
  }

  /** A grid in which at most one brick is hit counts at most one hit. */
  lemma {:induction false} AtMostOneGridHit(g: Grid, px: int, py: int)
    requires forall r1, c1, r2, c2 ::
               (0 <= r1 < |g| && 0 <= c1 < |g[r1]| && 0 <= r2 < |g| && 0 <= c2 < |g[r2]| &&
                Hit(g[r1][c1], px, py) && Hit(g[r2][c2], px, py)) ==> r1 == r2 && c1 == c2
    ensures GridHits(g, px, py) <= 1
  {
    if |g| > 0 {
      var t := g[1..];
      forall r1, c1, r2, c2 |
        0 <= r1 < |t| && 0 <= c1 < |t[r1]| && 0 <= r2 < |t| && 0 <= c2 < |t[r2]| &&
        Hit(t[r1][c1], px, py) && Hit(t[r2][c2], px, py)
        ensures r1 == r2 && c1 == c2
      {
        assert g[r1 + 1] == t[r1] && g[r2 + 1] == t[r2];
      }
      AtMostOneGridHit(t, px, py);
      AtMostOneRowHit(g[0], px, py);
      RowHitsExist(g[0], px, py);
      if RowHits(g[0], px, py) > 0 {
        var i :| 0 <= i < |g[0]| && Hit(g[0][i], px, py);
        forall r, c | 0 <= r < |t| && 0 <= c < |t[r]|
          ensures !Hit(t[r][c], px, py)
        {
          assert g[r + 1] == t[r];
        }
        GridHitsExist(t, px, py);
      }
    }
  }

  /** The open rectangles of a laid-out grid are pairwise disjoint, so one
      point is strictly inside at most one brick. */
  lemma ContainsUnique(g: Grid, r1: int, c1: int, r2: int, c2: int, px: int, py: int)
    requires Layout(g)
    requires 0 <= r1 < |g| && 0 <= c1 < |g[r1]| && 0 <= r2 < |g| && 0 <= c2 < |g[r2]|
    requires Contains(g[r1][c1], px, py) && Contains(g[r2][c2], px, py)
    ensures r1 == r2 && c1 == c2
  {
  }

  /** In a laid-out grid one scan hits at most one brick. */
  lemma AtMostOneBrickHit(g: Grid, px: int, py: int)
    requires Layout(g)
    ensures GridHits(g, px, py) <= 1
  {
    forall r1, c1, r2, c2 |
      0 <= r1 < |g| && 0 <= c1 < |g[r1]| && 0 <= r2 < |g| && 0 <= c2 < |g[r2]| &&
      Hit(g[r1][c1], px, py) && Hit(g[r2][c2], px, py)
      ensures r1 == r2 && c1 == c2
    {
      ContainsUnique(g, r1, c1, r2, c2, px, py);
    }
    AtMostOneGridHit(g, px, py);
  }

  /** No brick of a laid-out grid reaches below the last row, so a point at
      or below that line hits nothing. */
  lemma NoHitBelowGrid(g: Grid, px: int, py: int)
    requires Layout(g)
    requires py >= Rows * BrickHeight
    ensures !AnyHit(g, px, py)
    ensures StrikeGrid(g, px, py) == g
    ensures GridHits(g, px, py) == 0
  {
    forall r, c | 0 <= r < |g| && 0 <= c < |g[r]|
      ensures !Hit(g[r][c], px, py)
    {
      assert r * BrickHeight <= (Rows - 1) * BrickHeight;
    }
    StrikeWithoutHit(g, px, py);
  }

  /** No grid counts more destroyed bricks than it holds. */
  lemma {:induction false} DestroyedBound(g: Grid)
    requires Layout(g)
    ensures GridDestroyed(g) <= Rows * Cols
  {
    DestroyedRowsBound(g);
  }

  lemma {:induction false} DestroyedRowsBound(g: Grid)
    requires forall r :: 0 <= r < |g| ==> |g[r]| == Cols
    ensures GridDestroyed(g) <= |g| * Cols
  {
    if |g| > 0 {
      RowDestroyedBound(g[0]);
      assert forall r :: 0 <= r < |g[1..]| ==> g[1..][r] == g[r + 1];
      DestroyedRowsBound(g[1..]);
    }
  }

  lemma {:induction false} RowDestroyedBound(row: seq<Brick>)
    ensures RowDestroyed(row) <= |row|
  {
    if |row| > 0 {
      RowDestroyedBound(row[1..]);
    }
  }
}
