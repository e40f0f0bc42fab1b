/**
 * The Tetromino board (tetromino/tetromino/board.py): a column-major grid of
 * cells, collision checking, committing a piece and clearing complete lines.
 */
module Boards {
  import opened Pieces

  /** A board cell: blank ('.') or the palette index of a locked box. */
  datatype Cell = Blank | Box(color: int)

  /** Python's reading of a list index in [-n, n): negative indices count from the end. */
  function PyIndex(i: int, n: nat): (k: nat)
    requires -(n as int) <= i < n
    ensures k < n
    ensures k as int == i % (n as int)
  {
    if i < 0 then i + n else i
  }

  // ---------------------------------------------------------------------------
  // Rows, read top to bottom, and what clearing complete lines makes of them
  // ---------------------------------------------------------------------------

  /** A row with no blank cell. */
  predicate CompleteRow(row: seq<Cell>) {
    forall x :: 0 <= x < |row| ==> row[x] != Blank
  }

  function BlankRow(width: nat): seq<Cell> {
    seq(width, _ => Blank)
  }

  function Blanks(k: nat, width: nat): seq<seq<Cell>> {
    seq(k, _ => BlankRow(width))
  }

  /** The rows that are not complete, in their original order (defined from the bottom row up). */
  function Kept(rows: seq<seq<Cell>>): seq<seq<Cell>> {
    if rows == [] then []
    else if CompleteRow(rows[|rows| - 1]) then Kept(rows[..|rows| - 1])
    else Kept(rows[..|rows| - 1]) + [rows[|rows| - 1]]
  }

  /** The number of complete rows. */
  function CountComplete(rows: seq<seq<Cell>>): nat {
    if rows == [] then 0
    else CountComplete(rows[..|rows| - 1]) + (if CompleteRow(rows[|rows| - 1]) then 1 else 0)
  }

  /** The board after a line clear: one blank row on top for every complete row removed. */
  function Compacted(rows: seq<seq<Cell>>, width: nat): seq<seq<Cell>> {
    Blanks(CountComplete(rows), width) + Kept(rows)
  }

  /** Kept keeps exactly the rows CountComplete does not count. */
  lemma {:induction false} KeptSize(rows: seq<seq<Cell>>)
    ensures |Kept(rows)| + CountComplete(rows) == |rows|
  {
    if rows != [] {
      KeptSize(rows[..|rows| - 1]);
    }
  }

  /** Every kept row is a row of the input, and none of them is complete. */
  lemma {:induction false} KeptRowsAreIncomplete(rows: seq<seq<Cell>>)
    ensures forall i :: 0 <= i < |Kept(rows)| ==> Kept(rows)[i] in rows && !CompleteRow(Kept(rows)[i])
  {
    if rows != [] {
      var init := rows[..|rows| - 1];
      KeptRowsAreIncomplete(init);
      forall i | 0 <= i < |Kept(init)|
        ensures Kept(init)[i] in rows
      {
        assert Kept(init)[i] in init;
      }
    }
  }

  /** A blank row on top is never complete (for a board at least one column wide), so it is kept as is. */
  lemma {:induction false} PrependBlankRow(rows: seq<seq<Cell>>, width: nat)
    requires width > 0
    ensures Kept([BlankRow(width)] + rows) == [BlankRow(width)] + Kept(rows)
    ensures CountComplete([BlankRow(width)] + rows) == CountComplete(rows)
  {
    var b := BlankRow(width);
    assert !CompleteRow(b) by {
      assert b[0] == Blank;
    }
    if rows == [] {
      assert [b] + rows == [b];
      assert [b][..0] == [];
    } else {
      var init := rows[..|rows| - 1];
      PrependBlankRow(init, width);
      assert ([b] + rows)[..|rows|] == [b] + init;
      assert ([b] + rows)[|rows|] == rows[|rows| - 1];
    }
  }

  /**
   * Clearing keeps the board's dimensions and leaves no complete row behind
   * (on a board at least one column wide, where blank rows are not complete).
   */
  lemma CompactedShape(rows: seq<seq<Cell>>, width: nat)
    requires width > 0
    requires forall j :: 0 <= j < |rows| ==> |rows[j]| == width
    ensures |Compacted(rows, width)| == |rows|
    ensures forall j :: 0 <= j < |rows| ==> |Compacted(rows, width)[j]| == width
    ensures forall j :: 0 <= j < |rows| ==> !CompleteRow(Compacted(rows, width)[j])
  {
    KeptSize(rows);
    KeptRowsAreIncomplete(rows);
    var c := CountComplete(rows);
    forall j | 0 <= j < |rows|
      ensures |Compacted(rows, width)[j]| == width && !CompleteRow(Compacted(rows, width)[j])
    {
      if j < c {
        assert Compacted(rows, width)[j] == BlankRow(width);
        assert BlankRow(width)[0] == Blank;
      } else {
        assert Compacted(rows, width)[j] == Kept(rows)[j - c];
      }
    }
  }

  /** A board with no complete row is left as it is, so clearing twice is clearing once. */
  lemma {:induction false} CompactedNoComplete(rows: seq<seq<Cell>>, width: nat)
    requires forall j :: 0 <= j < |rows| ==> !CompleteRow(rows[j])
    ensures Compacted(rows, width) == rows
  {
    if rows != [] {
      var init := rows[..|rows| - 1];
      CompactedNoComplete(init, width);
      assert rows == init + [rows[|rows| - 1]];
    }
  }

  /**
   * The bottom-up scan's view of the board when its top k rows are still to be
   * scanned: compacting those rows and leaving the rest as they are.
   */
  function Pending(rows: seq<seq<Cell>>, k: nat, width: nat): seq<seq<Cell>>
    requires k <= |rows|
  {
    Blanks(CountComplete(rows[..k]), width) + Kept(rows[..k]) + rows[k..]
  }

  /** Removing complete row k - 1 (rows above move down, a blank row enters on top) leaves the pending view unchanged. */
  lemma {:induction false} ClearStep(rows: seq<seq<Cell>>, k: nat, width: nat)
    requires width > 0 && 0 < k <= |rows| && CompleteRow(rows[k - 1])
    ensures var after := [BlankRow(width)] + rows[..k - 1] + rows[k..];
      |after| == |rows| &&
      Pending(after, k, width) == Pending(rows, k, width) &&
      CountComplete(after[..k]) + 1 == CountComplete(rows[..k])
  {
    var above := rows[..k - 1];
    var after := [BlankRow(width)] + above + rows[k..];
    assert rows[..k][..k - 1] == above;
    assert after[..k] == [BlankRow(width)] + above;
    assert after[k..] == rows[k..];
    PrependBlankRow(above, width);
    assert Blanks(CountComplete(above), width) + [BlankRow(width)] == Blanks(CountComplete(above) + 1, width);
  }

  /** Moving the scan past incomplete row k - 1 leaves the pending view unchanged. */
  lemma {:induction false} SkipStep(rows: seq<seq<Cell>>, k: nat, width: nat)
    requires 0 < k <= |rows| && !CompleteRow(rows[k - 1])
    ensures Pending(rows, k - 1, width) == Pending(rows, k, width)
    ensures CountComplete(rows[..k - 1]) == CountComplete(rows[..k])
  {
    assert rows[..k][..k - 1] == rows[..k - 1];
    assert rows[k - 1..] == [rows[k - 1]] + rows[k..];
  }

  class Board {
    const width: nat
    const height: nat
    /** Column-major, as the source's list of columns: grid[x, y] is column x, row y (row 0 on top). */
    const grid: array2<Cell>

    ghost predicate Valid() {
      grid.Length0 == width && grid.Length1 == height
    }

    /** The board read row by row, top to bottom. */
    ghost function Rows(): (rows: seq<seq<Cell>>)
      reads grid
      ensures |rows| == grid.Length1
      ensures forall y :: 0 <= y < |rows| ==> |rows[y]| == grid.Length0
    {
      seq(grid.Length1, y requires 0 <= y < grid.Length1 reads grid =>
        seq(grid.Length0, x requires 0 <= x < grid.Length0 reads grid => grid[x, y]))
    }

    constructor (width: nat, height: nat)
      ensures Valid() && fresh(grid)
      ensures this.width == width && this.height == height
      ensures forall x, y :: 0 <= x < width && 0 <= y < height ==> grid[x, y] == Blank
      ensures Rows() == Blanks(height, width)
    {
      this.width := width;
      this.height := height;
      grid := new Cell[width, height]((x, y) => Blank);
      new;
      forall y | 0 <= y < height
        ensures Rows()[y] == Blanks(height, width)[y]
      {
        assert Rows()[y] == BlankRow(width);
      }
    }

    /** The cell (x, y) is on the board; rows above the top (y < 0) are not ruled out. */
    function IsOnBoard(x: int, y: int): (on: bool)
      requires Valid()
      ensures 0 <= y ==> (on <==> 0 <= x < grid.Length0 && y < grid.Length1)
      ensures y < 0 ==> (on <==> 0 <= x < grid.Length0)
    {
      0 <= x < width && y < height
    }

    /**
     * Template cell (tx, ty) of a template whose corner is at (px, py) does not
     * collide: it is blank, lies above the board, or covers a blank board cell.
     */
    ghost predicate CellFits(t: Template, px: int, py: int, tx: int, ty: int)
      reads grid
      requires Valid()
    {
      Filled(t, tx, ty) && 0 <= py + ty ==>
        IsOnBoard(px + tx, py + ty) && grid[px + tx, py + ty] == Blank
    }

    /** No cell of template t, placed with its corner at (px, py), collides. */
    ghost predicate TemplateFits(t: Template, px: int, py: int)
      reads grid
      requires Valid()
    {
      forall tx, ty :: 0 <= tx < TemplateWidth && 0 <= ty < TemplateHeight ==> CellFits(t, px, py, tx, ty)
    }

    /** The piece, moved by (adjX, adjY), collides with nothing. */
    ghost predicate Fits(catalog: Catalog, piece: Piece, adjX: int, adjY: int)
      reads grid
      requires Valid() && InCatalog(catalog, piece)
    {
      TemplateFits(TemplateOf(catalog, piece), piece.x + adjX, piece.y + adjY)
    }

    method IsValidPosition(catalog: Catalog, piece: Piece, adjX: int, adjY: int) returns (valid: bool)
      requires Valid() && ValidCatalog(catalog) && InCatalog(catalog, piece)
      ensures valid <==> Fits(catalog, piece, adjX, adjY)
    {
      var t := TemplateOf(catalog, piece);
      var px, py := piece.x + adjX, piece.y + adjY;
      for x := 0 to TemplateWidth
        invariant forall tx, ty :: 0 <= tx < x && 0 <= ty < TemplateHeight ==> CellFits(t, px, py, tx, ty)
      {
        for y := 0 to TemplateHeight
          invariant forall tx, ty :: 0 <= tx < x && 0 <= ty < TemplateHeight ==> CellFits(t, px, py, tx, ty)
          invariant forall ty :: 0 <= ty < y ==> CellFits(t, px, py, x, ty)
        {
          var isAboveBoard := y + piece.y + adjY < 0;
          if isAboveBoard || t[y][x] == BlankMark {
            continue;
          }
          if !IsOnBoard(x + piece.x + adjX, y + piece.y + adjY) {
            assert !CellFits(t, px, py, x, y);
            return false;
          }
          if grid[x + piece.x + adjX, y + piece.y + adjY] != Blank {
            assert !CellFits(t, px, py, x, y);
            return false;
          }
        }
      }
      return true;
    }

    // -------------------------------------------------------------------------
    // Committing a piece
    // -------------------------------------------------------------------------

    /**
     * Board index (a, b) -- possibly negative -- is where template cell
     * (a - px, b - py) lands, that cell is filled, and it comes before
     * position `scanned` in the scan order (column by column, top to bottom).
     */
    ghost predicate SourceCell(t: Template, px: int, py: int, a: int, b: int, scanned: int) {
      0 <= a - px < TemplateWidth && 0 <= b - py < TemplateHeight &&
      Filled(t, a - px, b - py) && TemplateHeight * (a - px) + (b - py) < scanned
    }

    /**
     * Grid cell (i, j) is written by the commit: a filled template cell lands on
     * index i or i - width in its column, and on j or j - height in its row
     * (the negative indices Python reads from the end of the list).
     */
    ghost predicate Covers(t: Template, px: int, py: int, i: int, j: int, scanned: int) {
      SourceCell(t, px, py, i, j, scanned) || SourceCell(t, px, py, i - width, j, scanned) ||
      SourceCell(t, px, py, i, j - height, scanned) || SourceCell(t, px, py, i - width, j - height, scanned)
    }

    /** Every filled cell has indices Python accepts, so committing raises no IndexError. */
    ghost predicate CommitInRange(catalog: Catalog, piece: Piece)
      requires InCatalog(catalog, piece)
    {
      forall tx, ty :: Filled(TemplateOf(catalog, piece), tx, ty) ==>
        -(width as int) <= piece.x + tx < width && -(height as int) <= piece.y + ty < height
    }

    /** Every filled cell lies on the board proper, row 0 or below. */
    ghost predicate CommitOnBoard(catalog: Catalog, piece: Piece)
      requires InCatalog(catalog, piece)
    {
      forall tx, ty :: Filled(TemplateOf(catalog, piece), tx, ty) ==>
        0 <= piece.x + tx < width && 0 <= piece.y + ty < height
    }

    /** The rows the board will have once the piece is committed. */
    ghost function Committed(catalog: Catalog, piece: Piece): seq<seq<Cell>>
      reads grid
      requires Valid() && InCatalog(catalog, piece)
    {
      var t := TemplateOf(catalog, piece);
      seq(height, j requires 0 <= j < height reads grid =>
        seq(width, i requires 0 <= i < width reads grid =>
          if Covers(t, piece.x, piece.y, i, j, TemplateWidth * TemplateHeight) then Box(piece.color) else grid[i, j]))
    }

    /**
     * Writes the piece's colour into the cell under every filled template cell.
     * Like the source, cells above the board are not skipped: a negative row
     * index reaches the bottom rows through Python's negative indexing.
     */
    method AddPiece(catalog: Catalog, piece: Piece)
      requires Valid() && ValidCatalog(catalog) && InCatalog(catalog, piece)
      requires CommitInRange(catalog, piece)
      modifies grid
      ensures forall i, j :: 0 <= i < width && 0 <= j < height ==>
        grid[i, j] == if Covers(TemplateOf(catalog, piece), piece.x, piece.y, i, j, TemplateWidth * TemplateHeight)
                      then Box(piece.color) else old(grid[i, j])
      ensures Rows() == old(Committed(catalog, piece))
    {
      var t := TemplateOf(catalog, piece);
      for x := 0 to TemplateWidth
        invariant forall i, j :: 0 <= i < width && 0 <= j < height ==>
          grid[i, j] == if Covers(t, piece.x, piece.y, i, j, TemplateHeight * x) then Box(piece.color) else old(grid[i, j])
      {
        for y := 0 to TemplateHeight
          invariant forall i, j :: 0 <= i < width && 0 <= j < height ==>
            grid[i, j] == if Covers(t, piece.x, piece.y, i, j, TemplateHeight * x + y) then Box(piece.color) else old(grid[i, j])
        {
          assert t[y][x] != BlankMark ==> Filled(t, x, y);
          if t[y][x] != BlankMark {
            grid[PyIndex(x + piece.x, width), PyIndex(y + piece.y, height)] := Box(piece.color);
          }
          forall i, j | 0 <= i < width && 0 <= j < height
            ensures grid[i, j] == if Covers(t, piece.x, piece.y, i, j, TemplateHeight * x + y + 1) then Box(piece.color) else old(grid[i, j])
          {
            CoversStep(t, piece.x, piece.y, x, y, i, j);
          }
        }
      }
      ghost var committed := old(Committed(catalog, piece));
      forall j | 0 <= j < height
        ensures Rows()[j] == committed[j]
      {
        forall i | 0 <= i < width
          ensures Rows()[j][i] == committed[j][i]
        {
        }
      }
    }

    /** Scanning template cell (x, y) adds exactly the grid cell it is written to. */
    lemma CoversStep(t: Template, px: int, py: int, x: int, y: int, i: int, j: int)
      requires WellFormedTemplate(t) && 0 <= x < TemplateWidth && 0 <= y < TemplateHeight
      requires t[y][x] != BlankMark ==> -(width as int) <= px + x < width && -(height as int) <= py + y < height
      requires 0 <= i < width && 0 <= j < height
      ensures Covers(t, px, py, i, j, TemplateHeight * x + y + 1) <==>
                Covers(t, px, py, i, j, TemplateHeight * x + y) ||
                (t[y][x] != BlankMark && i == PyIndex(x + px, width) && j == PyIndex(y + py, height))
    {
    }

    /** With every filled cell on the board proper, the commit covers exactly the template's cells. */
    lemma CoversOnBoard(catalog: Catalog, piece: Piece, i: int, j: int)
      requires ValidCatalog(catalog) && InCatalog(catalog, piece) && CommitOnBoard(catalog, piece)
      requires 0 <= i < width && 0 <= j < height
      ensures Covers(TemplateOf(catalog, piece), piece.x, piece.y, i, j, TemplateWidth * TemplateHeight)
              <==> Filled(TemplateOf(catalog, piece), i - piece.x, j - piece.y)
    {
      var t := TemplateOf(catalog, piece);
      assert !Filled(t, i - width - piece.x, j - piece.y);
      assert !Filled(t, i - piece.x, j - height - piece.y);
      assert !Filled(t, i - width - piece.x, j - height - piece.y);
    }

    // -------------------------------------------------------------------------
    // Line clearing
    // -------------------------------------------------------------------------

    method IsCompleteLine(y: int) returns (complete: bool)
      requires Valid() && 0 <= y < height
      ensures complete <==> forall x :: 0 <= x < width ==> grid[x, y] != Blank
      ensures complete <==> CompleteRow(Rows()[y])
    {
      for x := 0 to width
        invariant forall i :: 0 <= i < x ==> grid[i, y] != Blank
      {
        if grid[x, y] == Blank {
          assert Rows()[y][x] == Blank;
          return false;
        }
      }
      return true;
    }

    /** Removes row y: every row above it moves down one, and row 0 becomes blank. */
    method PullDown(y: int)
      requires Valid() && 0 <= y < height
      modifies grid
      ensures Rows() == [BlankRow(width)] + old(Rows())[..y] + old(Rows())[y + 1..]
    {
      var pullDownY := y;
      while pullDownY > 0
        invariant 0 <= pullDownY <= y
        invariant forall i, j :: 0 <= i < width && 0 <= j < height ==>
          grid[i, j] == if pullDownY < j <= y then old(grid[i, j - 1]) else old(grid[i, j])
      {
        for x := 0 to width
          invariant forall i, j :: 0 <= i < width && 0 <= j < height ==>
            grid[i, j] == if pullDownY < j <= y || (j == pullDownY && i < x) then old(grid[i, j - 1]) else old(grid[i, j])
        {
          grid[x, pullDownY] := grid[x, pullDownY - 1];
        }
        pullDownY := pullDownY - 1;
      }
      for x := 0 to width
        invariant forall i, j :: 0 <= i < width && 0 <= j < height ==>
          grid[i, j] == if j == 0 && i < x then Blank else if 0 < j <= y then old(grid[i, j - 1]) else old(grid[i, j])
      {
        grid[x, 0] := Blank;
      }
      ghost var before := old(Rows());
      ghost var after := [BlankRow(width)] + before[..y] + before[y + 1..];
      forall j | 0 <= j < height
        ensures Rows()[j] == after[j]
      {
        if j == 0 {
          assert Rows()[j] == BlankRow(width);
        } else if j <= y {
          assert after[j] == before[j - 1];
        } else {
          assert after[j] == before[j];
        }
      }
    }

    /**
     * Scans from the bottom row up; a complete row is removed and the scan stays
     * on the same row, which now holds the row that was above it.
     */
    method RemoveCompleteLines() returns (numLinesRemoved: nat)
      requires Valid()
      requires width > 0 || height == 0  // with no columns every row is complete and the scan never ends
      modifies grid
      ensures Rows() == Compacted(old(Rows()), width)
      ensures numLinesRemoved == CountComplete(old(Rows()))
    {
      ghost var start := Rows();
      numLinesRemoved := 0;
      var y: int := height - 1;
      assert Rows()[..y + 1] == start;
      while y >= 0
        invariant -1 <= y < height
        invariant Pending(Rows(), y + 1, width) == Compacted(start, width)
        invariant numLinesRemoved + CountComplete(Rows()[..y + 1]) == CountComplete(start)
        decreases y + 1, CountComplete(Rows()[..y + 1])
      {
        var complete := IsCompleteLine(y);
        ghost var before := Rows();
        if complete {
          PullDown(y);
          ClearStep(before, y + 1, width);
          numLinesRemoved := numLinesRemoved + 1;
        } else {
          SkipStep(before, y + 1, width);
          y := y - 1;
        }
      }
      assert Rows()[0..] == Rows();
    }
  }
}
