/**
 * The Tetromino turn rules (tetromino/tetromino/game.py): the level formula and
 * the state changes of the game loop in `run` -- spawning, moving, rotating,
 * dropping and locking the falling piece -- with drawing, sound, the event
 * queue and the clock taken away.  Every elapsed-time test of the loop becomes
 * a boolean input of the transition it gates.
 */
module Tetromino {
  import opened Options
  import opened Pieces
  import opened Boards

  /** The level for a score: one level per ten cleared lines, starting at 1. */
  function Level(score: nat): (level: nat)
    ensures level >= 1
    ensures 10 * (level - 1) <= score < 10 * level
  {
    score / 10 + 1
  }

  /** A higher score never gives a lower level. */
  lemma {:induction false} LevelMonotone(s1: nat, s2: nat)
    requires s1 <= s2
    ensures Level(s1) <= Level(s2)
  {
    var l1, l2 := Level(s1), Level(s2);
    assert 10 * (l1 - 1) < 10 * l2;
  }

  /**
   * Seconds between two gravity steps, in hundredths (the source computes
   * 0.27 - 0.02 * level in floating point).  Each level takes two hundredths
   * off, and from level 14 on the interval is no longer positive, so the piece
   * falls on every frame.
   */
  function FallIntervalCentis(level: int): (centis: int)
    ensures centis + 2 * level == 27
    ensures centis <= 0 <==> level >= 14
  {
    27 - 2 * level
  }

  /** A falling interval is never longer at a higher level. */
  lemma {:induction false} FallIntervalShrinks(s1: nat, s2: nat)
    requires s1 <= s2
    ensures FallIntervalCentis(Level(s2)) <= FallIntervalCentis(Level(s1))
  {
    LevelMonotone(s1, s2);
  }

  /**
   * Rotating one step and back (or back and forth) restores the rotation:
   * this is what the revert after a blocked rotation relies on.
   */
  lemma {:induction false} RotationRoundTrip(r: int, n: int)
    requires 0 <= r < n
    ensures 0 <= (r + 1) % n < n && ((r + 1) % n - 1) % n == r
    ensures 0 <= (r - 1) % n < n && ((r - 1) % n + 1) % n == r
  {
    assert r % n == r;
    if r + 1 < n {
      assert (r + 1) % n == r + 1;
    } else {
      assert (r + 1) % n == 0 && (-1) % n == n - 1;
    }
    if r == 0 {
      assert (-1) % n == n - 1 && n % n == 0;
    } else {
      assert (r - 1) % n == r - 1;
    }
  }

  /**
   * The rotation index after `k` turns of one step each, where a step is
   * `step` = 1 for the up key and -1 for the q key.
   */
  function Rotated(r: int, n: int, k: nat, step: int): int
    requires n > 0
    decreases k
  {
    if k == 0 then r else Rotated((r + step) % n, n, k - 1, step)
  }

  /** Turning `a + b` times is turning `a` times and then `b` times. */
  lemma {:induction false} RotatedSplit(r: int, n: int, a: nat, b: nat, step: int)
    requires n > 0
    ensures Rotated(r, n, a + b, step) == Rotated(Rotated(r, n, a, step), n, b, step)
    decreases a
  {
    if a > 0 {
      RotatedSplit((r + step) % n, n, a - 1, b, step);
    }
  }

  /** Short of the last state, clockwise turns just count up. */
  lemma {:induction false} RotatedUp(r: int, n: int, k: nat)
    requires 0 <= r && r + k < n
    ensures Rotated(r, n, k, 1) == r + k
    decreases k
  {
    if k > 0 {
      assert (r + 1) % n == r + 1;
      RotatedUp(r + 1, n, k - 1);
    }
  }

  /** Down to state 0, counter-clockwise turns just count down. */
  lemma {:induction false} RotatedDown(r: int, n: int, k: nat)
    requires k <= r < n
    ensures Rotated(r, n, k, -1) == r - k
    decreases k
  {
    if k > 0 {
      assert (r - 1) % n == r - 1;
      RotatedDown(r - 1, n, k - 1);
    }
  }

  /**
   * A shape with `n` rotation states comes back to the state it started in
   * after `n` turns in either direction, and not before.
   */
  lemma FullTurn(r: int, n: int)
    requires 0 <= r < n
    ensures Rotated(r, n, n, 1) == r && Rotated(r, n, n, -1) == r
    ensures forall k :: 0 < k < n ==> Rotated(r, n, k, 1) != r && Rotated(r, n, k, -1) != r
  {
    // clockwise: up to n - 1, wrap to 0, then up to r
    RotatedSplit(r, n, n - 1 - r, r + 1, 1);
    RotatedUp(r, n, n - 1 - r);
    WrapUp(n);
    if r > 0 {
      RotatedUp(0, n, r);
    }
    // counter-clockwise: down to 0, wrap to n - 1, then down to r
    RotatedSplit(r, n, r, n - r, -1);
    RotatedDown(r, n, r);
    WrapDown(n);
    RotatedDown(n - 1, n, n - r - 1);
    forall k | 0 < k < n
      ensures Rotated(r, n, k, 1) != r && Rotated(r, n, k, -1) != r
    {
      NoEarlyReturnUp(r, n, k);
      NoEarlyReturnDown(r, n, k);
    }
  }

  /** A clockwise turn from the last state goes to state 0. */
  lemma WrapUp(n: int)
    requires n > 0
    ensures Rotated(n - 1, n, 1, 1) == 0
  {
    assert (n - 1 + 1) % n == 0;
  }

  /** A counter-clockwise turn from state 0 goes to the last state. */
  lemma WrapDown(n: int)
    requires n > 0
    ensures Rotated(0, n, 1, -1) == n - 1
  {
    assert (0 - 1) % n == n - 1;
  }

  /** The state clockwise turns reach from `r` after `k < n` turns is not `r`. */
  lemma {:induction false} NoEarlyReturnUp(r: int, n: int, k: nat)
    requires 0 <= r < n && 0 < k < n
    ensures Rotated(r, n, k, 1) != r
  {
    if r + k < n {
      RotatedUp(r, n, k);
    } else {
      var m := k - (n - r);
      RotatedSplit(r, n, n - 1 - r, 1 + m, 1);
      RotatedUp(r, n, n - 1 - r);
      WrapUp(n);
      assert Rotated(n - 1, n, 1 + m, 1) == Rotated(0, n, m, 1);
      RotatedUp(0, n, m);
    }
  }

  /** The state counter-clockwise turns reach from `r` after `k < n` turns is not `r`. */
  lemma {:induction false} NoEarlyReturnDown(r: int, n: int, k: nat)
    requires 0 <= r < n && 0 < k < n
    ensures Rotated(r, n, k, -1) != r
  {
    if k <= r {
      RotatedDown(r, n, k);
    } else {
      var m := k - r - 1;
      RotatedSplit(r, n, r, 1 + m, -1);
      RotatedDown(r, n, r);
      WrapDown(n);
      assert Rotated(0, n, 1 + m, -1) == Rotated(n - 1, n, m, -1);
      RotatedDown(n - 1, n, m);
    }
  }

  /** The keys the game reacts to; each arrow key has a letter twin (a, d, w, s). */
  datatype Key = LeftKey | RightKey | UpKey | QKey | DownKey | SpaceKey | PauseKey | OtherKey

  class Game {
    /** The template table the pieces are drawn from (piece_templates). */
    const catalog: Catalog
    var board: Board
    /** The piece in play; None between a lock and the next spawn. */
    var fallingPiece: Option<Piece>
    /** The piece shown in the "Next" box. */
    var nextPiece: Option<Piece>
    var score: nat
    /** Keys held down, which repeat their move while the repeat timer fires. */
    var movingDown: bool
    var movingLeft: bool
    var movingRight: bool

    ghost predicate Valid()
      reads this
    {
      board.Valid() && ValidCatalog(catalog) &&
      (fallingPiece.Some? ==> InCatalog(catalog, fallingPiece.value)) &&
      (nextPiece.Some? ==> InCatalog(catalog, nextPiece.value))
    }

    /** The piece in play, if any, collides with nothing. */
    ghost predicate PieceFits()
      reads this, board.grid
      requires Valid()
    {
      fallingPiece.Some? ==> board.Fits(catalog, fallingPiece.value, 0, 0)
    }

    constructor (catalog: Catalog, boardWidth: nat, boardHeight: nat)
      requires ValidCatalog(catalog)
      ensures Valid() && fresh(board) && fresh(board.grid)
      ensures this.catalog == catalog
      ensures board.width == boardWidth && board.height == boardHeight
      ensures board.Rows() == Blanks(boardHeight, boardWidth)
      ensures score == 0
      ensures !movingDown && !movingLeft && !movingRight
      ensures fallingPiece.None? && nextPiece.None?
    {
      this.catalog := catalog;
      board := new Board(boardWidth, boardHeight);
      movingDown, movingLeft, movingRight := false, false, false;
      score := 0;
      fallingPiece, nextPiece := None, None;
    }

    /** Starts over on a fresh blank board of the same size, with score 0. */
    method Reset()
      requires Valid()
      modifies this
      ensures Valid() && fresh(board) && fresh(board.grid)
      ensures board.width == old(board.width) && board.height == old(board.height)
      ensures board.Rows() == Blanks(board.height, board.width)
      ensures score == 0
      ensures !movingDown && !movingLeft && !movingRight
      ensures fallingPiece == old(fallingPiece) && nextPiece == old(nextPiece)
    {
      board := new Board(board.width, board.height);
      movingDown, movingLeft, movingRight := false, false, false;
      score := 0;
    }

    /** The start of `run`: two random pieces, the first in play and the second next. */
    method Start(first: Piece, second: Piece)
      requires Valid()
      requires IsSpawn(catalog, board.width, first) && IsSpawn(catalog, board.width, second)
      modifies this
      ensures Valid() && board == old(board) && score == old(score)
      ensures movingDown == old(movingDown) && movingLeft == old(movingLeft) && movingRight == old(movingRight)
      ensures fallingPiece == Some(first) && nextPiece == Some(second)
    {
      fallingPiece, nextPiece := Some(first), Some(second);
    }

    /**
     * The top of the game loop: with no piece in play, the next piece comes
     * into play and `drawn` becomes the next one.  The game is over when the
     * piece brought into play collides at once.
     */
    method Spawn(drawn: Piece) returns (gameOver: bool)
      requires Valid() && nextPiece.Some?
      requires IsSpawn(catalog, board.width, drawn)
      modifies this
      ensures Valid() && board == old(board) && score == old(score)
      ensures movingDown == old(movingDown) && movingLeft == old(movingLeft) && movingRight == old(movingRight)
      ensures old(fallingPiece).Some? ==>
        fallingPiece == old(fallingPiece) && nextPiece == old(nextPiece) && !gameOver
      ensures old(fallingPiece).None? ==>
        fallingPiece == old(nextPiece) && nextPiece == Some(drawn) &&
        (gameOver <==> !board.Fits(catalog, fallingPiece.value, 0, 0))
      ensures !gameOver ==> (old(PieceFits()) || old(fallingPiece).None?) ==> PieceFits()
    {
      gameOver := false;
      if fallingPiece.None? {
        fallingPiece := nextPiece;
        nextPiece := Some(drawn);
        var valid := board.IsValidPosition(catalog, fallingPiece.value, 0, 0);
        gameOver := !valid;
      }
    }

    /** Key released: a held arrow key stops repeating; the pause key only restarts the timers. */
    method KeyUp(key: Key)
      requires Valid()
      modifies this
      ensures Valid() && board == old(board) && score == old(score)
      ensures fallingPiece == old(fallingPiece) && nextPiece == old(nextPiece)
      ensures movingLeft == (old(movingLeft) && key != LeftKey)
      ensures movingRight == (old(movingRight) && key != RightKey)
      ensures movingDown == (old(movingDown) && key != DownKey)
    {
      match key {
        case LeftKey => movingLeft := false;
        case RightKey => movingRight := false;
        case DownKey => movingDown := false;
        case _ =>
      }
    }

    /** Left pressed: the piece moves one column left if it fits there, and the left key starts repeating. */
    method MoveLeft()
      requires Valid() && fallingPiece.Some?
      modifies this
      ensures Valid() && board == old(board) && score == old(score) && nextPiece == old(nextPiece)
      ensures movingDown == old(movingDown)
      ensures var p := old(fallingPiece.value);
        if board.Fits(catalog, p, -1, 0) then
          fallingPiece == Some(p.(x := p.x - 1)) && movingLeft && !movingRight
        else
          fallingPiece == Some(p) && movingLeft == old(movingLeft) && movingRight == old(movingRight)
      ensures old(PieceFits()) ==> PieceFits()
    {
      var p := fallingPiece.value;
      var valid := board.IsValidPosition(catalog, p, -1, 0);
      if valid {
        fallingPiece := Some(p.(x := p.x - 1));
        movingLeft, movingRight := true, false;
      }
    }

    /** Right pressed: the mirror image of MoveLeft. */
    method MoveRight()
      requires Valid() && fallingPiece.Some?
      modifies this
      ensures Valid() && board == old(board) && score == old(score) && nextPiece == old(nextPiece)
      ensures movingDown == old(movingDown)
      ensures var p := old(fallingPiece.value);
        if board.Fits(catalog, p, 1, 0) then
          fallingPiece == Some(p.(x := p.x + 1)) && movingRight && !movingLeft
        else
          fallingPiece == Some(p) && movingLeft == old(movingLeft) && movingRight == old(movingRight)
      ensures old(PieceFits()) ==> PieceFits()
    {
      var p := fallingPiece.value;
      var valid := board.IsValidPosition(catalog, p, 1, 0);
      if valid {
        fallingPiece := Some(p.(x := p.x + 1));
        movingRight, movingLeft := true, false;
      }
    }

    /**
     * Up pressed: the piece turns to its next rotation state (cyclically); if
     * it collides there it is turned back, to exactly the state it had.
     */
    method RotateClockwise()
      requires Valid() && fallingPiece.Some?
      modifies this
      ensures Valid() && board == old(board) && score == old(score) && nextPiece == old(nextPiece)
      ensures movingDown == old(movingDown) && movingLeft == old(movingLeft) && movingRight == old(movingRight)
      ensures var p := old(fallingPiece.value);
        var turned := p.(rotation := (p.rotation + 1) % |catalog[p.shape]|);
        InCatalog(catalog, turned) &&
        fallingPiece == if board.Fits(catalog, turned, 0, 0) then Some(turned) else Some(p)
      ensures old(PieceFits()) ==> PieceFits()
    {
      var p := fallingPiece.value;
      var n := |catalog[p.shape]|;
      RotationRoundTrip(p.rotation, n);
      var turned := p.(rotation := (p.rotation + 1) % n);
      var valid := board.IsValidPosition(catalog, turned, 0, 0);
      if !valid {
        turned := turned.(rotation := (turned.rotation - 1) % n);
      }
      fallingPiece := Some(turned);
    }

    /** Q pressed: as RotateClockwise, turning the other way. */
    method RotateCounterClockwise()
      requires Valid() && fallingPiece.Some?
      modifies this
      ensures Valid() && board == old(board) && score == old(score) && nextPiece == old(nextPiece)
      ensures movingDown == old(movingDown) && movingLeft == old(movingLeft) && movingRight == old(movingRight)
      ensures var p := old(fallingPiece.value);
        var turned := p.(rotation := (p.rotation - 1) % |catalog[p.shape]|);
        InCatalog(catalog, turned) &&
        fallingPiece == if board.Fits(catalog, turned, 0, 0) then Some(turned) else Some(p)
      ensures old(PieceFits()) ==> PieceFits()
    {
      var p := fallingPiece.value;
      var n := |catalog[p.shape]|;
      RotationRoundTrip(p.rotation, n);
      var turned := p.(rotation := (p.rotation - 1) % n);
      var valid := board.IsValidPosition(catalog, turned, 0, 0);
      if !valid {
        turned := turned.(rotation := (turned.rotation + 1) % n);
      }
      fallingPiece := Some(turned);
    }

    /** Down pressed: the piece moves one row down if it fits there, and the down key starts repeating. */
    method SoftDrop()
      requires Valid() && fallingPiece.Some?
      modifies this
      ensures Valid() && board == old(board) && score == old(score) && nextPiece == old(nextPiece)
      ensures movingDown && movingLeft == old(movingLeft) && movingRight == old(movingRight)
      ensures var p := old(fallingPiece.value);
        fallingPiece == if board.Fits(catalog, p, 0, 1) then Some(p.(y := p.y + 1)) else Some(p)
      ensures old(PieceFits()) ==> PieceFits()
    {
      movingDown := true;
      var p := fallingPiece.value;
      var valid := board.IsValidPosition(catalog, p, 0, 1);
      if valid {
        fallingPiece := Some(p.(y := p.y + 1));
      }
    }

    /**
     * The probe loop of a hard drop: the piece is tried 1, 2, ..., height - 1
     * rows down, stopping at the first probe that collides.  The distance is
     * one less than the last row count tried: the rows above the first
     * collision, or height - 2 when no probe collides.
     */
    method DropDistance(p: Piece) returns (d: int)
      requires Valid() && InCatalog(catalog, p)
      requires board.height >= 2  // with fewer rows the probe loop never binds its counter
      ensures 0 <= d <= board.height - 2
      ensures forall k :: 1 <= k <= d ==> board.Fits(catalog, p, 0, k)
      ensures d < board.height - 2 ==> !board.Fits(catalog, p, 0, d + 1)
    {
      var last := 1;
      for i := 1 to board.height
        invariant i == 1 || last == i - 1
        invariant 1 <= last < board.height
        invariant forall k :: 1 <= k < i ==> board.Fits(catalog, p, 0, k)
      {
        last := i;
        var valid := board.IsValidPosition(catalog, p, 0, i);
        if !valid {
          break;
        }
      }
      d := last - 1;
    }

    /**
     * Space pressed: every held key is released and the piece moves down by
     * DropDistance -- onto whatever stops it, unless it comes within one row of
     * the probe limit, where it may stop one row short of resting.
     */
    method HardDrop()
      requires Valid() && fallingPiece.Some?
      requires board.height >= 2  // with fewer rows the probe loop never binds its counter
      modifies this
      ensures Valid() && board == old(board) && score == old(score) && nextPiece == old(nextPiece)
      ensures !movingDown && !movingLeft && !movingRight
      ensures fallingPiece.Some?
      ensures var p, q := old(fallingPiece.value), fallingPiece.value;
        var d := q.y - p.y;
        q == p.(y := q.y) &&
        0 <= d <= board.height - 2 &&
        (forall k :: 1 <= k <= d ==> board.Fits(catalog, p, 0, k)) &&
        (d < board.height - 2 ==> !board.Fits(catalog, p, 0, d + 1))
      // short of the probe limit, the piece comes to rest on something
      ensures fallingPiece.value.y - old(fallingPiece.value.y) < board.height - 2 ==>
        !board.Fits(catalog, fallingPiece.value, 0, 1)
      ensures old(PieceFits()) ==> PieceFits()
    {
      movingDown, movingLeft, movingRight := false, false, false;
      var p := fallingPiece.value;
      var d := DropDistance(p);
      fallingPiece := Some(p.(y := p.y + d));
      if d > 0 {
        assert board.Fits(catalog, p, 0, d);
      }
    }

    /** The sideways repeat: while left or right is held and its timer fires, the piece keeps moving that way. */
    method RepeatSideways(elapsed: bool)
      requires Valid() && fallingPiece.Some?
      modifies this
      ensures Valid() && board == old(board) && score == old(score) && nextPiece == old(nextPiece)
      ensures movingDown == old(movingDown) && movingLeft == old(movingLeft) && movingRight == old(movingRight)
      ensures var p := old(fallingPiece.value);
        fallingPiece ==
          if !(elapsed && (movingLeft || movingRight)) then Some(p)
          else if movingLeft && board.Fits(catalog, p, -1, 0) then Some(p.(x := p.x - 1))
          else if movingRight && board.Fits(catalog, p, 1, 0) then Some(p.(x := p.x + 1))
          else Some(p)
      ensures old(PieceFits()) ==> PieceFits()
    {
      if (movingLeft || movingRight) && elapsed {
        var p := fallingPiece.value;
        var leftOk := false;
        if movingLeft {
          leftOk := board.IsValidPosition(catalog, p, -1, 0);
        }
        if leftOk {
          fallingPiece := Some(p.(x := p.x - 1));
        } else if movingRight {
          var rightOk := board.IsValidPosition(catalog, p, 1, 0);
          if rightOk {
            fallingPiece := Some(p.(x := p.x + 1));
          }
        }
      }
    }

    /** The downward repeat: while down is held and its timer fires, the piece moves down if it fits. */
    method RepeatSoftDrop(elapsed: bool)
      requires Valid() && fallingPiece.Some?
      modifies this
      ensures Valid() && board == old(board) && score == old(score) && nextPiece == old(nextPiece)
      ensures movingDown == old(movingDown) && movingLeft == old(movingLeft) && movingRight == old(movingRight)
      ensures var p := old(fallingPiece.value);
        fallingPiece ==
          if movingDown && elapsed && board.Fits(catalog, p, 0, 1) then Some(p.(y := p.y + 1)) else Some(p)
      ensures old(PieceFits()) ==> PieceFits()
    {
      if movingDown && elapsed {
        var p := fallingPiece.value;
        var valid := board.IsValidPosition(catalog, p, 0, 1);
        if valid {
          fallingPiece := Some(p.(y := p.y + 1));
        }
      }
    }

    /**
     * Gravity: when the fall timer fires, the piece moves one row down if it
     * fits there; otherwise it lands -- it is written into the board, the
     * complete lines are removed, the score grows by their number and no piece
     * is in play any more.
     */
    method GravityTick(fired: bool) returns (landed: bool)
      requires Valid() && fallingPiece.Some?
      // a landing on a board with no columns never ends its line removal
      requires fired && !board.Fits(catalog, fallingPiece.value, 0, 1) ==>
        board.width > 0 || board.height == 0
      // the source raises IndexError when a filled cell's index is out of Python's range
      requires fired && !board.Fits(catalog, fallingPiece.value, 0, 1) ==>
        board.CommitInRange(catalog, fallingPiece.value)
      modifies this, board.grid
      ensures Valid() && board == old(board) && nextPiece == old(nextPiece)
      ensures movingDown == old(movingDown) && movingLeft == old(movingLeft) && movingRight == old(movingRight)
      ensures landed <==> fired && !old(board.Fits(catalog, fallingPiece.value, 0, 1))
      ensures !landed ==> board.Rows() == old(board.Rows()) && score == old(score)
      ensures !fired ==> fallingPiece == old(fallingPiece)
      ensures fired && !landed ==>
        fallingPiece == Some(old(fallingPiece.value).(y := old(fallingPiece.value.y) + 1))
      ensures landed ==>
        fallingPiece.None? &&
        board.Rows() == Compacted(old(board.Committed(catalog, fallingPiece.value)), board.width) &&
        score == old(score) + CountComplete(old(board.Committed(catalog, fallingPiece.value)))
      ensures landed && board.width > 0 ==> forall j :: 0 <= j < board.height ==> !CompleteRow(board.Rows()[j])
      ensures old(PieceFits()) ==> PieceFits()
      ensures score >= old(score)
    {
      landed := false;
      if fired {
        var p := fallingPiece.value;
        var valid := board.IsValidPosition(catalog, p, 0, 1);
        if !valid {
          ghost var committed := board.Committed(catalog, p);
          board.AddPiece(catalog, p);
          var removed := board.RemoveCompleteLines();
          score := score + removed;
          fallingPiece := None;
          landed := true;
          if board.width > 0 {
            CompactedShape(committed, board.width);
          }
        } else {
          fallingPiece := Some(p.(y := p.y + 1));
        }
      }
    }
  }
}
