/**
 * Tetromino pieces (tetromino/tetromino/piece.py) and the template table they
 * are drawn from.  The table itself (piece_templates.py) is not part of this
 * model: it is taken as a parameter `catalog` mapping each shape name to its
 * rotation states, each a 5x5 grid of rows in which '.' marks a blank cell.
 */
module Pieces {

  /** Size of every template's bounding box (Piece.template_width/height). */
  const TemplateWidth: nat := 5
  const TemplateHeight: nat := 5

  /** The marker of a blank cell, in templates and on the board. */
  const BlankMark: char := '.'

  /** Number of entries of the colour palette `colors` (blue, green, red, yellow). */
  const PaletteSize: nat := 4

  /** One rotation state: rows top to bottom, each a string of columns. */
  type Template = seq<string>

  /** Shape name |-> its rotation states. */
  type Catalog = map<string, seq<Template>>

  predicate WellFormedTemplate(t: Template) {
    |t| == TemplateHeight && forall row :: 0 <= row < |t| ==> |t[row]| == TemplateWidth
  }

  /** What the game relies on: every shape has at least one rotation state, all 5x5. */
  predicate ValidCatalog(catalog: Catalog) {
    forall shape :: shape in catalog ==>
      |catalog[shape]| > 0 &&
      forall r :: 0 <= r < |catalog[shape]| ==> WellFormedTemplate(catalog[shape][r])
  }

  /** Template cell (tx, ty) -- column tx of row ty -- is part of the piece. */
  predicate Filled(t: Template, tx: int, ty: int) {
    0 <= ty < |t| && 0 <= tx < |t[ty]| && t[ty][tx] != BlankMark
  }

  /** A falling piece: its template's top-left corner sits at board cell (x, y). */
  datatype Piece = Piece(shape: string, rotation: int, x: int, y: int, color: int)

  /** The piece's shape is in the table and its rotation indexes one of its states. */
  predicate InCatalog(catalog: Catalog, p: Piece) {
    p.shape in catalog && 0 <= p.rotation < |catalog[p.shape]|
  }

  function TemplateOf(catalog: Catalog, p: Piece): Template
    requires InCatalog(catalog, p)
  {
    catalog[p.shape][p.rotation]
  }

  /**
   * Piece.create_random with its three random draws (shape, rotation, colour)
   * as parameters restricted to the ranges the draws come from.
   */
  function CreateRandom(catalog: Catalog, boardWidth: nat, shape: string, rotation: int, color: int): (p: Piece)
    requires shape in catalog
    requires 0 <= rotation < |catalog[shape]|
    requires 0 <= color < PaletteSize
    ensures InCatalog(catalog, p)
    ensures p.shape == shape && p.rotation == rotation && p.color == color
    ensures 0 <= p.color < PaletteSize
    // the template's middle column is the board's middle column ...
    ensures p.x + TemplateWidth / 2 == boardWidth / 2
    // ... and the template starts above the board, its middle row on row 0
    ensures p.y < 0 && p.y + TemplateHeight / 2 == 0
  {
    Piece(shape, rotation, boardWidth / 2 - TemplateWidth / 2, -2, color)
  }

  /** The piece is one that CreateRandom can return for a board `boardWidth` columns wide. */
  predicate IsSpawn(catalog: Catalog, boardWidth: nat, p: Piece) {
    InCatalog(catalog, p) && 0 <= p.color < PaletteSize &&
    p == CreateRandom(catalog, boardWidth, p.shape, p.rotation, p.color)
  }
}
