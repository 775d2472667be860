/** The text rendering of a board (`impl Display for Board` in src/day12.rs).

    The glyphs are kept abstract: a frame square, the glyph of a tile, and
    plain text. Each element of the rendering is one line of output; the
    line terminator written after every line is implicit. */
module BoardDisplay {
  import opened Wrappers
  import opened MilkCookie

  datatype Token = Frame | Glyph(tile: Tile) | Text(text: string)

  type Line = seq<Token>

  /** Row `r` framed on both sides: cells 4r..4r+3 between two frame glyphs. */
  function RowLine(cells: seq<Tile>, r: nat): (ln: Line)
    requires |cells| == CellCount && r < Rows
    ensures |ln| == Cols + 2 && ln[0] == Frame && ln[Cols + 1] == Frame
    ensures forall c :: 0 <= c < Cols ==> ln[c + 1] == Glyph(Cell(cells, r, c))
  {
    [Frame, Glyph(Cell(cells, r, 0)), Glyph(Cell(cells, r, 1)), Glyph(Cell(cells, r, 2)), Glyph(Cell(cells, r, 3)), Frame]
  }

  /** The solid bottom edge, six frame glyphs wide. */
  const BottomEdge: Line := [Frame, Frame, Frame, Frame, Frame, Frame]

  const NoWinner: string := "No winner."
  const Wins: string := " wins!"

  /** The status line: none while the game runs, "No winner." for a draw,
      "<tile> wins!" for a team's win. */
  function Status(winner: Option<Tile>): seq<Line> {
    match winner
    case None => []
    case Some(Empty) => [[Text(NoWinner)]]
    case Some(t) => [[Glyph(t), Text(Wins)]]
  }

  function Render(b: Board): (lines: seq<Line>)
    requires ValidBoard(b)
    ensures |lines| == Rows + 1 + (if b.winner.Some? then 1 else 0)
    ensures forall r :: 0 <= r < Rows ==> lines[r] == RowLine(b.cells, r)
    ensures lines[Rows] == BottomEdge
    ensures b.winner == Some(Empty) ==> lines[Rows + 1] == [Text(NoWinner)]
    ensures b.winner.Some? && b.winner.value != Empty ==> lines[Rows + 1] == [Glyph(b.winner.value), Text(Wins)]
  {
    [RowLine(b.cells, 0), RowLine(b.cells, 1), RowLine(b.cells, 2), RowLine(b.cells, 3), BottomEdge]
      + Status(b.winner)
  }

  /** The rendering determines the board: two boards that print the same are equal. */
  lemma RenderInjective(b1: Board, b2: Board)
    requires ValidBoard(b1) && ValidBoard(b2)
    requires Render(b1) == Render(b2)
    ensures b1 == b2
  {
    var l1, l2 := Render(b1), Render(b2);
    forall i | 0 <= i < CellCount ensures b1.cells[i] == b2.cells[i] {
      var r, c := i / 4, i % 4;
      assert l1[r][c + 1] == Glyph(Cell(b1.cells, r, c)) && Cell(b1.cells, r, c) == b1.cells[i];
      assert l2[r][c + 1] == Glyph(Cell(b2.cells, r, c)) && Cell(b2.cells, r, c) == b2.cells[i];
    }
    assert b1.cells == b2.cells;
    assert |l1| == |l2|;
    if b1.winner.Some? {
      assert l1[Rows + 1] == l2[Rows + 1];
      StatusDetermines(b1.winner, b2.winner);
    }
  }

  lemma StatusDetermines(w1: Option<Tile>, w2: Option<Tile>)
    requires w1.Some? && w2.Some? && Status(w1) == Status(w2)
    ensures w1 == w2
  {
    assert Status(w1)[0] == Status(w2)[0];
    if w1.value == Empty || w2.value == Empty {
      assert Status(w1)[0][0] == Status(w2)[0][0];
    }
  }
}
