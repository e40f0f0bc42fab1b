/**
 * The Memory Puzzle rules (memorypuzzle/memorypuzzle/game.py): a 10 x 7 board
 * of icons dealt in pairs, the revealed/covered state of each box and the
 * click-to-match state machine of the main loop.  The palette and shape lists
 * (colors.py, shapes.py) are not part of this model; they are parameters.
 */
module MemoryPuzzle {
  import opened Options

  const BoardWidth: nat := 10
  const BoardHeight: nat := 7
  const BoxSize: nat := 40
  const GapSize: nat := 10
  const WindowWidth: nat := 640
  const WindowHeight: nat := 480
  /** The margins centre the grid of boxes (with their gaps) in the window. */
  const XMargin: int := (WindowWidth - BoardWidth * (BoxSize + GapSize)) / 2
  const YMargin: int := (WindowHeight - BoardHeight * (BoxSize + GapSize)) / 2
  /** Every icon in play is used twice, so half as many icons as boxes. */
  const NumIconsUsed: nat := BoardWidth * BoardHeight / 2

  type Shape = string
  datatype Rgb = Rgb(r: int, g: int, b: int)
  /** An icon is a shape drawn in a colour; two boxes match when their icons are equal. */
  datatype Icon = Icon(shape: Shape, color: Rgb)

  /** A column-major board: BoardWidth columns of BoardHeight boxes. */
  predicate Shaped<T>(grid: seq<seq<T>>) {
    |grid| == BoardWidth && forall x :: 0 <= x < BoardWidth ==> |grid[x]| == BoardHeight
  }

  predicate InBoard(boxX: int, boxY: int) {
    0 <= boxX < BoardWidth && 0 <= boxY < BoardHeight
  }

  /** The columns one after the other. */
  function Concat<T>(groups: seq<seq<T>>): seq<T> {
    if groups == [] then [] else Concat(groups[..|groups| - 1]) + groups[|groups| - 1]
  }

  function SetBox(revealed: seq<seq<bool>>, boxX: int, boxY: int, val: bool): seq<seq<bool>>
    requires 0 <= boxX < |revealed| && 0 <= boxY < |revealed[boxX]|
  {
    revealed[boxX := revealed[boxX][boxY := val]]
  }

  /** Covering the box just revealed and another one leaves that other one covered and nothing else changed. */
  lemma CoverPair(revealed: seq<seq<bool>>, fx: int, fy: int, boxX: int, boxY: int)
    requires Shaped(revealed) && InBoard(fx, fy) && InBoard(boxX, boxY)
    requires !revealed[boxX][boxY]
    ensures SetBox(SetBox(SetBox(revealed, boxX, boxY, true), fx, fy, false), boxX, boxY, false)
            == SetBox(revealed, fx, fy, false)
  {
    var a := SetBox(SetBox(SetBox(revealed, boxX, boxY, true), fx, fy, false), boxX, boxY, false);
    var b := SetBox(revealed, fx, fy, false);
    forall x | 0 <= x < BoardWidth
      ensures a[x] == b[x]
    {
      assert |a[x]| == |b[x]|;
      forall y | 0 <= y < |a[x]|
        ensures a[x][y] == b[x][y]
      {
      }
    }
  }

  predicate Distinct<T(==)>(s: seq<T>) {
    forall i, j :: 0 <= i < j < |s| ==> s[i] != s[j]
  }

  // ---------------------------------------------------------------------------
  // Revealed boxes
  // ---------------------------------------------------------------------------

  /** The player has won when no box of any column is covered. */
  function HasWon(revealed: seq<seq<bool>>): (won: bool)
    ensures won <==> forall x, y :: 0 <= x < |revealed| && 0 <= y < |revealed[x]| ==> revealed[x][y]
  {
    if revealed == [] then true
    else false !in revealed[0] && HasWon(revealed[1..])
  }

  /** A board's worth of boxes, all revealed (val) or all covered (!val). */
  method GenerateRevealedBoxesData(val: bool) returns (revealed: seq<seq<bool>>)
    ensures Shaped(revealed)
    ensures forall x, y :: InBoard(x, y) ==> revealed[x][y] == val
    ensures HasWon(revealed) <==> val
  {
    revealed := [];
    for i := 0 to BoardWidth
      invariant |revealed| == i
      invariant forall x :: 0 <= x < i ==> revealed[x] == seq(BoardHeight, _ => val)
    {
      revealed := revealed + [seq(BoardHeight, _ => val)];
    }
    assert revealed[0][0] == val;
  }

  // ---------------------------------------------------------------------------
  // Dealing the board
  // ---------------------------------------------------------------------------

  /** One colour in every shape, in shape order. */
  function IconsIn(color: Rgb, shapes: seq<Shape>): seq<Icon> {
    seq(|shapes|, s requires 0 <= s < |shapes| => Icon(shapes[s], color))
  }

  lemma IconsInMembers(color: Rgb, shapes: seq<Shape>)
    ensures forall ic :: ic in IconsIn(color, shapes) <==> ic.color == color && ic.shape in shapes
  {
    forall ic: Icon | ic.color == color && ic.shape in shapes
      ensures ic in IconsIn(color, shapes)
    {
      var s :| 0 <= s < |shapes| && shapes[s] == ic.shape;
      assert IconsIn(color, shapes)[s] == ic;
    }
  }

  /** Every shape in every colour: colour by colour, and within a colour shape by shape. */
  function IconProduct(colors: seq<Rgb>, shapes: seq<Shape>): (icons: seq<Icon>)
    ensures |icons| == |colors| * |shapes|
    ensures forall ic :: ic in icons <==> ic.color in colors && ic.shape in shapes
  {
    if colors == [] then []
    else
      var init := colors[..|colors| - 1];
      var icons := IconProduct(init, shapes) + IconsIn(colors[|colors| - 1], shapes);
      assert |icons| == |init| * |shapes| + |shapes| == |colors| * |shapes|;
      assert forall c :: c in colors <==> c in init || c == colors[|colors| - 1];
      IconsInMembers(colors[|colors| - 1], shapes);
      icons
  }

  /** The first loop of getRandomizedBoard: every shape in every colour. */
  method AllIcons(colors: seq<Rgb>, shapes: seq<Shape>) returns (icons: seq<Icon>)
    ensures icons == IconProduct(colors, shapes)
  {
    icons := [];
    for c := 0 to |colors|
      invariant icons == IconProduct(colors[..c], shapes)
    {
      assert colors[..c + 1][..c] == colors[..c];
      for s := 0 to |shapes|
        invariant icons == IconProduct(colors[..c], shapes) + IconsIn(colors[c], shapes)[..s]
      {
        assert IconsIn(colors[c], shapes)[..s + 1] == IconsIn(colors[c], shapes)[..s] + [Icon(shapes[s], colors[c])];
        icons := icons + [Icon(shapes[s], colors[c])];
      }
      assert IconsIn(colors[c], shapes)[..|shapes|] == IconsIn(colors[c], shapes);
    }
    assert colors[..|colors|] == colors;
  }

  /**
   * The last loop of getRandomizedBoard: the icons are dealt column by column,
   * each column top to bottom, taking them from the front of the list.
   */
  method FillBoard(icons: seq<Icon>) returns (board: seq<seq<Icon>>)
    requires |icons| >= BoardWidth * BoardHeight  // `del icons[0]` on an empty list raises IndexError
    ensures Shaped(board)
    ensures forall x, y :: InBoard(x, y) ==> board[x][y] == icons[x * BoardHeight + y]
    ensures Concat(board) == icons[..BoardWidth * BoardHeight]
  {
    var rest := icons;
    board := [];
    for x := 0 to BoardWidth
      invariant |board| == x
      invariant rest == icons[x * BoardHeight..]
      invariant forall i :: 0 <= i < x ==> board[i] == icons[i * BoardHeight..i * BoardHeight + BoardHeight]
      invariant Concat(board) == icons[..x * BoardHeight]
    {
      var column := [];
      for y := 0 to BoardHeight
        invariant column == icons[x * BoardHeight..x * BoardHeight + y]
        invariant rest == icons[x * BoardHeight + y..]
      {
        column := column + [rest[0]];
        rest := rest[1..];
      }
      assert (board + [column])[..x] == board;
      assert icons[..(x + 1) * BoardHeight] == icons[..x * BoardHeight] + column;
      board := board + [column];
    }
  }

  /**
   * Deals a new board.  The two shuffles are the random draws: `firstShuffle`
   * is the list of every icon in a random order, and `secondShuffle` the first
   * NumIconsUsed of those, each twice, in a random order.
   */
  method GetRandomizedBoard(colors: seq<Rgb>, shapes: seq<Shape>, firstShuffle: seq<Icon>, secondShuffle: seq<Icon>)
    returns (board: seq<seq<Icon>>)
    requires |colors| * |shapes| * 2 >= BoardWidth * BoardHeight
    requires multiset(firstShuffle) == multiset(IconProduct(colors, shapes))
    requires NumIconsUsed <= |firstShuffle|
    requires multiset(secondShuffle) == multiset(firstShuffle[..NumIconsUsed] + firstShuffle[..NumIconsUsed])
    ensures Shaped(board) && |secondShuffle| == BoardWidth * BoardHeight
    ensures forall x, y :: InBoard(x, y) ==> board[x][y] == secondShuffle[x * BoardHeight + y]
    ensures Concat(board) == secondShuffle
    ensures forall ic :: multiset(Concat(board))[ic] == 2 * multiset(firstShuffle[..NumIconsUsed])[ic]
  {
    var icons := AllIcons(colors, shapes);
    // random.shuffle(icons): the same icons, in the order drawn
    assert multiset(firstShuffle) == multiset(icons);
    icons := firstShuffle;
    var numIconsUsed := BoardWidth * BoardHeight / 2;
    icons := icons[..numIconsUsed] + icons[..numIconsUsed];
    // random.shuffle(icons) again
    icons := secondShuffle;
    assert |secondShuffle| == |multiset(secondShuffle)| == |firstShuffle[..numIconsUsed] + firstShuffle[..numIconsUsed]|;
    board := FillBoard(icons);
    assert icons[..BoardWidth * BoardHeight] == icons;
  }

  /** A sequence without repeats holds each value at most once. */
  lemma {:induction false} DistinctCounts<T>(s: seq<T>)
    requires Distinct(s)
    ensures forall v :: multiset(s)[v] <= 1
  {
    if s != [] {
      var init := s[..|s| - 1];
      assert s == init + [s[|s| - 1]];
      DistinctCounts(init);
      assert s[|s| - 1] !in init;
    }
  }

  /** With no repeated colour and no repeated shape, every icon occurs at most once. */
  lemma {:induction false} IconProductCounts(colors: seq<Rgb>, shapes: seq<Shape>)
    requires Distinct(colors) && Distinct(shapes)
    ensures forall ic :: multiset(IconProduct(colors, shapes))[ic] <= 1
  {
    if colors != [] {
      var init := colors[..|colors| - 1];
      var c := colors[|colors| - 1];
      IconProductCounts(init, shapes);
      var row := IconsIn(c, shapes);
      assert Distinct(row) by {
        forall i, j | 0 <= i < j < |row|
          ensures row[i] != row[j]
        {
          assert row[i].shape == shapes[i] && row[j].shape == shapes[j];
        }
      }
      DistinctCounts(row);
      forall ic
        ensures multiset(IconProduct(colors, shapes))[ic] <= 1
      {
        assert IconProduct(colors, shapes) == IconProduct(init, shapes) + row;
        if ic.color == c {
          assert c !in init;
          assert ic !in IconProduct(init, shapes);
        } else {
          assert ic !in row;
        }
      }
    }
  }

  /**
   * With no repeated colour and no repeated shape, every icon dealt onto the
   * board occurs on it exactly twice: it has exactly one partner.
   */
  lemma EachIconTwice(colors: seq<Rgb>, shapes: seq<Shape>, firstShuffle: seq<Icon>, board: seq<seq<Icon>>)
    requires Distinct(colors) && Distinct(shapes)
    requires multiset(firstShuffle) == multiset(IconProduct(colors, shapes))
    requires NumIconsUsed <= |firstShuffle|
    requires forall ic :: multiset(Concat(board))[ic] == 2 * multiset(firstShuffle[..NumIconsUsed])[ic]
    ensures forall ic :: ic in Concat(board) ==> multiset(Concat(board))[ic] == 2
  {
    IconProductCounts(colors, shapes);
    var used := firstShuffle[..NumIconsUsed];
    assert firstShuffle == used + firstShuffle[NumIconsUsed..];
    forall ic | ic in Concat(board)
      ensures multiset(Concat(board))[ic] == 2
    {
      assert multiset(used)[ic] <= multiset(firstShuffle)[ic];
    }
  }

  /**
   * Cuts a list into consecutive groups of `groupSize` items, the last group
   * taking what is left.  A negative size gives no groups (an empty range).
   */
  method SplitIntoGroupsOf<T>(groupSize: int, items: seq<T>) returns (groups: seq<seq<T>>)
    requires groupSize != 0  // range() with a step of 0 raises ValueError
    ensures groupSize < 0 ==> groups == []
    ensures groupSize > 0 ==> Concat(groups) == items
    ensures groupSize > 0 ==> forall k :: 0 <= k < |groups| ==> 0 < |groups[k]| <= groupSize
    ensures groupSize > 0 ==> forall k :: 0 <= k < |groups| - 1 ==> |groups[k]| == groupSize
    // as many groups as it takes: ceil(|items| / groupSize)
    ensures groupSize > 0 ==> (|groups| - 1) * groupSize < |items| <= |groups| * groupSize
  {
    groups := [];
    if groupSize < 0 {
      return;
    }
    var i := 0;
    while i < |items|
      invariant 0 <= i == |groups| * groupSize
      invariant |groups| > 0 ==> (|groups| - 1) * groupSize < |items|
      invariant Concat(groups) == items[..if i <= |items| then i else |items|]
      invariant forall k :: 0 <= k < |groups| ==> 0 < |groups[k]| <= groupSize
      invariant forall k :: 0 <= k < |groups| - 1 ==> |groups[k]| == groupSize
      invariant i <= |items| ==> forall k :: 0 <= k < |groups| ==> |groups[k]| == groupSize
      decreases |items| - i
    {
      var end := if i + groupSize <= |items| then i + groupSize else |items|;
      AppendGroup(groups, items, i, end);
      assert (|groups| + 1) * groupSize == |groups| * groupSize + groupSize;
      groups := groups + [items[i..end]];
      i := i + groupSize;
    }
  }

  /** Appending the next slice extends the concatenation by that slice. */
  lemma AppendGroup<T>(groups: seq<seq<T>>, items: seq<T>, i: int, end: int)
    requires 0 <= i <= end <= |items| && Concat(groups) == items[..i]
    ensures Concat(groups + [items[i..end]]) == items[..end]
  {
    assert (groups + [items[i..end]])[..|groups|] == groups;
    assert items[..end] == items[..i] + items[i..end];
  }

  // ---------------------------------------------------------------------------
  // Screen geometry
  // ---------------------------------------------------------------------------

  /** The pixel position of the top-left corner of box (boxX, boxY). */
  function LeftTopCoordsOfBox(boxX: int, boxY: int): (r: (int, int))
    // a box of the board is drawn entirely inside the window
    ensures InBoard(boxX, boxY) ==>
      0 <= r.0 && r.0 + BoxSize <= WindowWidth && 0 <= r.1 && r.1 + BoxSize <= WindowHeight
  {
    (boxX * (BoxSize + GapSize) + XMargin, boxY * (BoxSize + GapSize) + YMargin)
  }

  /** Two different boxes are drawn on squares that do not overlap: at least a gap lies between them. */
  lemma BoxesApart(boxX1: int, boxY1: int, boxX2: int, boxY2: int)
    requires (boxX1, boxY1) != (boxX2, boxY2)
    ensures var (l1, t1) := LeftTopCoordsOfBox(boxX1, boxY1);
      var (l2, t2) := LeftTopCoordsOfBox(boxX2, boxY2);
      l1 + BoxSize + GapSize <= l2 || l2 + BoxSize + GapSize <= l1 ||
      t1 + BoxSize + GapSize <= t2 || t2 + BoxSize + GapSize <= t1
  {
    if boxX1 != boxX2 {
      if boxX1 < boxX2 {
        assert (boxX2 - boxX1) * (BoxSize + GapSize) >= BoxSize + GapSize;
      } else {
        assert (boxX1 - boxX2) * (BoxSize + GapSize) >= BoxSize + GapSize;
      }
    } else if boxY1 < boxY2 {
      assert (boxY2 - boxY1) * (BoxSize + GapSize) >= BoxSize + GapSize;
    } else {
      assert (boxY1 - boxY2) * (BoxSize + GapSize) >= BoxSize + GapSize;
    }
  }

  /** The shape and the colour of the icon in box (boxX, boxY). */
  function GetShapeAndColor(board: seq<seq<Icon>>, boxX: int, boxY: int): (r: (Shape, Rgb))
    requires 0 <= boxX < |board| && 0 <= boxY < |board[boxX]|
    ensures r.0 == board[boxX][boxY].shape && r.1 == board[boxX][boxY].color
  {
    (board[boxX][boxY].shape, board[boxX][boxY].color)
  }

  /** Comparing shape and colour, as the game does, is comparing icons. */
  lemma SameShapeAndColor(board: seq<seq<Icon>>, x1: int, y1: int, x2: int, y2: int)
    requires 0 <= x1 < |board| && 0 <= y1 < |board[x1]| && 0 <= x2 < |board| && 0 <= y2 < |board[x2]|
    ensures GetShapeAndColor(board, x1, y1) == GetShapeAndColor(board, x2, y2) <==> board[x1][y1] == board[x2][y2]
  {
  }

  // ---------------------------------------------------------------------------
  // The game
  // ---------------------------------------------------------------------------

  class Game {
    /** ALLCOLORS and ALLSHAPES. */
    const colors: seq<Rgb>
    const shapes: seq<Shape>
    var mainBoard: seq<seq<Icon>>
    var revealedBoxes: seq<seq<bool>>
    /** The box clicked first in the current pair, if any; it is revealed. */
    var firstSelection: Option<(int, int)>

    ghost predicate Valid()
      reads this
    {
      |colors| * |shapes| * 2 >= BoardWidth * BoardHeight &&
      Shaped(mainBoard) && Shaped(revealedBoxes) &&
      (firstSelection.Some? ==>
        InBoard(firstSelection.value.0, firstSelection.value.1) &&
        revealedBoxes[firstSelection.value.0][firstSelection.value.1])
    }

    /** The random draws of getRandomizedBoard, for this game's palette and shapes. */
    ghost predicate IsDeal(firstShuffle: seq<Icon>, secondShuffle: seq<Icon>) {
      multiset(firstShuffle) == multiset(IconProduct(colors, shapes)) &&
      NumIconsUsed <= |firstShuffle| &&
      multiset(secondShuffle) == multiset(firstShuffle[..NumIconsUsed] + firstShuffle[..NumIconsUsed])
    }

    constructor (colors: seq<Rgb>, shapes: seq<Shape>, firstShuffle: seq<Icon>, secondShuffle: seq<Icon>)
      // the source asserts there are enough icons for the board
      requires |colors| * |shapes| * 2 >= BoardWidth * BoardHeight
      requires multiset(firstShuffle) == multiset(IconProduct(colors, shapes))
      requires NumIconsUsed <= |firstShuffle|
      requires multiset(secondShuffle) == multiset(firstShuffle[..NumIconsUsed] + firstShuffle[..NumIconsUsed])
      ensures Valid() && this.colors == colors && this.shapes == shapes
      ensures Concat(mainBoard) == secondShuffle
      ensures forall x, y :: InBoard(x, y) ==> !revealedBoxes[x][y]
      ensures firstSelection.None?
    {
      this.colors := colors;
      this.shapes := shapes;
      var board := GetRandomizedBoard(colors, shapes, firstShuffle, secondShuffle);
      var revealed := GenerateRevealedBoxesData(false);
      mainBoard, revealedBoxes := board, revealed;
      firstSelection := None;
    }

    /**
     * A click on box (boxX, boxY).  A revealed box ignores it.  A covered box is
     * revealed; it becomes the first selection when none is pending, and
     * otherwise completes a pair: a pair that does not match is covered again,
     * a matching pair stays revealed, and when that reveals the whole board a
     * new board is dealt (from the given draws) with every box covered.
     */
    method Click(boxX: int, boxY: int, firstShuffle: seq<Icon>, secondShuffle: seq<Icon>)
      requires Valid() && InBoard(boxX, boxY)
      requires IsDeal(firstShuffle, secondShuffle)
      modifies this
      ensures Valid()
      ensures old(revealedBoxes[boxX][boxY]) ==>
        mainBoard == old(mainBoard) && revealedBoxes == old(revealedBoxes) && firstSelection == old(firstSelection)
      ensures !old(revealedBoxes[boxX][boxY]) && old(firstSelection).None? ==>
        mainBoard == old(mainBoard) && firstSelection == Some((boxX, boxY)) &&
        revealedBoxes == SetBox(old(revealedBoxes), boxX, boxY, true)
      ensures !old(revealedBoxes[boxX][boxY]) && old(firstSelection).Some? ==>
        var (fx, fy) := old(firstSelection.value);
        var uncovered := SetBox(old(revealedBoxes), boxX, boxY, true);
        firstSelection.None? &&
        if old(mainBoard[fx][fy] != mainBoard[boxX][boxY]) then
          mainBoard == old(mainBoard) && revealedBoxes == SetBox(old(revealedBoxes), fx, fy, false)
        else if HasWon(uncovered) then
          Concat(mainBoard) == secondShuffle && forall x, y :: InBoard(x, y) ==> !revealedBoxes[x][y]
        else
          mainBoard == old(mainBoard) && revealedBoxes == uncovered
    {
      if !revealedBoxes[boxX][boxY] {
        revealedBoxes := SetBox(revealedBoxes, boxX, boxY, true);
        if firstSelection.None? {
          firstSelection := Some((boxX, boxY));
        } else {
          var (fx, fy) := firstSelection.value;
          var (shape1, color1) := GetShapeAndColor(mainBoard, fx, fy);
          var (shape2, color2) := GetShapeAndColor(mainBoard, boxX, boxY);
          if shape1 != shape2 || color1 != color2 {
            CoverPair(old(revealedBoxes), fx, fy, boxX, boxY);
            revealedBoxes := SetBox(revealedBoxes, fx, fy, false);
            revealedBoxes := SetBox(revealedBoxes, boxX, boxY, false);
          } else if HasWon(revealedBoxes) {
            mainBoard := GetRandomizedBoard(colors, shapes, firstShuffle, secondShuffle);
            revealedBoxes := GenerateRevealedBoxesData(false);
          }
          firstSelection := None;
        }
      }
    }
  }
}
