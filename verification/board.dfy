/** The 4x4 gravity-fill board of the cookie-and-milk game (src/day12.rs).

    Cells are addressed by a flat index `4 * row + col`. Row 0 holds indices
    0..3 and is printed first, so it is the TOP row; a token dropped into a
    column lands on the highest-index empty cell of that column. */
module MilkCookie {
  import opened Wrappers

  datatype Tile = Empty | Cookie | Milk

  /** `winner`: None while the game runs, Some(Empty) for a draw, Some(team) for a win. */
  datatype Board = Board(cells: seq<Tile>, winner: Option<Tile>)

  datatype MoveError = ColumnFull | GameOver

  const Rows: nat := 4
  const Cols: nat := 4
  const CellCount: nat := 16

  predicate ValidBoard(b: Board) {
    |b.cells| == CellCount
  }

  /** The cell at `row` (0 = top) and `col` (0 = left). */
  function Cell(cells: seq<Tile>, row: nat, col: nat): Tile
    requires |cells| == CellCount && row < Rows && col < Cols
  {
    cells[4 * row + col]
  }

  predicate Full(cells: seq<Tile>) {
    Empty !in cells
  }

  function EmptyCount(cells: seq<Tile>): nat {
    multiset(cells)[Empty]
  }

  /** The empty board of `Board::default`. */
  function Default(): (b: Board)
    ensures ValidBoard(b) && b.winner == None
    ensures forall i :: 0 <= i < |b.cells| ==> b.cells[i] == Empty
  {
    Board(seq(CellCount, _ => Empty), None)
  }

  // ---------------------------------------------------------------------------
  // Winning lines

  /** Number of lines `check_winner` inspects. */
  const LineCount: nat := 10

  /** The lines in the order `check_winner` inspects them: the two diagonals,
      then the rows from the highest indices (row 3) down to row 0, then the
      columns from left to right. */
  function WinLine(j: nat): (ln: seq<nat>)
    requires j < LineCount
    ensures |ln| == 4 && forall k :: 0 <= k < 4 ==> ln[k] < CellCount
  {
    match j
    case 0 => [0, 5, 10, 15]
    case 1 => [3, 6, 9, 12]
    case 2 => [12, 13, 14, 15]
    case 3 => [8, 9, 10, 11]
    case 4 => [4, 5, 6, 7]
    case 5 => [0, 1, 2, 3]
    case 6 => [0, 4, 8, 12]
    case 7 => [1, 5, 9, 13]
    case 8 => [2, 6, 10, 14]
    case _ => [3, 7, 11, 15]
  }

  /** The tile owning line `j`: its first cell's tile, when that is not Empty
      and the other three cells hold the same tile. */
  function LineOwner(cells: seq<Tile>, j: nat): Option<Tile>
    requires |cells| == CellCount && j < LineCount
  {
    var ln := WinLine(j);
    var t := cells[ln[0]];
    if t != Empty && t == cells[ln[1]] && t == cells[ln[2]] && t == cells[ln[3]] then Some(t) else None
  }

  predicate SomeLineWins(cells: seq<Tile>)
    requires |cells| == CellCount
  {
    exists j :: 0 <= j < LineCount && LineOwner(cells, j).Some?
  }

  /** `t` owns line `j` and no earlier line has an owner. */
  predicate FirstOwner(cells: seq<Tile>, j: nat, t: Tile)
    requires |cells| == CellCount
  {
    && j < LineCount
    && LineOwner(cells, j) == Some(t)
    && forall i :: 0 <= i < j ==> LineOwner(cells, i).None?
  }

  /** The owner of the first owned line among lines k..9, scanning in order. */
  function FirstWinFrom(cells: seq<Tile>, k: nat): (r: Option<Tile>)
    requires |cells| == CellCount && k <= LineCount
    requires forall i :: 0 <= i < k ==> LineOwner(cells, i).None?
    ensures r.Some? ==> exists j :: k <= j < LineCount && FirstOwner(cells, j, r.value)
    ensures r.None? ==> forall j :: k <= j < LineCount ==> LineOwner(cells, j).None?
    decreases LineCount - k
  {
    if k == LineCount then None
    else if LineOwner(cells, k).Some? then
      assert FirstOwner(cells, k, LineOwner(cells, k).value);
      LineOwner(cells, k)
    else FirstWinFrom(cells, k + 1)
  }

  /** Every cell of row `r` holds `t`. */
  predicate RowOf(cells: seq<Tile>, r: nat, t: Tile)
    requires |cells| == CellCount && r < Rows
  {
    forall c :: 0 <= c < Cols ==> Cell(cells, r, c) == t
  }

  /** Every cell of column `c` holds `t`. */
  predicate ColumnOf(cells: seq<Tile>, c: nat, t: Tile)
    requires |cells| == CellCount && c < Cols
  {
    forall r :: 0 <= r < Rows ==> Cell(cells, r, c) == t
  }

  /** The k-th cell of the diagonal running from the top-right corner to the bottom-left one. */
  function AntiDiagonal(cells: seq<Tile>, k: nat): Tile
    requires |cells| == CellCount && k < Rows
  {
    Cell(cells, k, Cols - 1 - k)
  }

  /** Four cells in a row, a column or a diagonal all hold `t`, stated on the
      grid geometry and independently of the line table. */
  predicate HasFour(cells: seq<Tile>, t: Tile)
    requires |cells| == CellCount
  {
    && t != Empty
    && ( (exists r :: 0 <= r < Rows && RowOf(cells, r, t))
      || (exists c :: 0 <= c < Cols && ColumnOf(cells, c, t))
      || (forall k :: 0 <= k < Rows ==> Cell(cells, k, k) == t)
      || (forall k :: 0 <= k < Rows ==> AntiDiagonal(cells, k) == t))
  }

  /** The winner a board's cells call for when the game was still running:
      the first owned line, else a draw when no cell is empty, else none. */
  function Outcome(cells: seq<Tile>): Option<Tile>
    requires |cells| == CellCount
  {
    var w := FirstWinFrom(cells, 0);
    if w.Some? then w else if Full(cells) then Some(Empty) else None
  }

  /** `Board::check_winner`: recompute the winner from the cells. */
  function CheckWinner(b: Board): (r: Board)
    requires ValidBoard(b)
    ensures r.cells == b.cells
    ensures SomeLineWins(b.cells) ==>
              exists j :: 0 <= j < LineCount && r.winner.Some? && FirstOwner(b.cells, j, r.winner.value)
    ensures SomeLineWins(b.cells) ==> r.winner.Some? && HasFour(b.cells, r.winner.value)
    ensures !SomeLineWins(b.cells) && Full(b.cells) ==> r.winner == Some(Empty)
    ensures !SomeLineWins(b.cells) && !Full(b.cells) ==> r.winner == b.winner
  {
    var w := FirstWinFrom(b.cells, 0);
    if w.Some? then
      OwnerHasFour(b.cells, w.value);
      Board(b.cells, w)
    else if Full(b.cells) then Board(b.cells, Some(Empty))
    else b
  }

  lemma LineOwnerHasFour(cells: seq<Tile>, j: nat, t: Tile)
    requires |cells| == CellCount && j < LineCount
    requires LineOwner(cells, j) == Some(t)
    ensures HasFour(cells, t)
  {
    var ln := WinLine(j);
    assert forall k :: 0 <= k < 4 ==> cells[ln[k]] == t;
    if j == 0 {
      assert forall k :: 0 <= k < 4 ==> Cell(cells, k, k) == cells[ln[k]];
    } else if j == 1 {
      assert forall k :: 0 <= k < 4 ==> AntiDiagonal(cells, k) == cells[ln[k]];
    } else if j < 6 {
      var r := 5 - j;
      assert forall c :: 0 <= c < Cols ==> Cell(cells, r, c) == cells[ln[c]];
      assert RowOf(cells, r, t);
    } else {
      var c := j - 6;
      assert forall r :: 0 <= r < Rows ==> Cell(cells, r, c) == cells[ln[r]];
      assert ColumnOf(cells, c, t);
    }
  }

  lemma OwnerHasFour(cells: seq<Tile>, t: Tile)
    requires |cells| == CellCount
    requires exists j :: 0 <= j < LineCount && FirstOwner(cells, j, t)
    ensures HasFour(cells, t)
  {
    var j :| 0 <= j < LineCount && FirstOwner(cells, j, t);
    LineOwnerHasFour(cells, j, t);
  }

  /** The line table and the grid geometry agree: some line of the table is
      owned by `t` exactly when four cells in a line hold `t`. */
  lemma LinesMatchGeometry(cells: seq<Tile>, t: Tile)
    requires |cells| == CellCount
    ensures (exists j :: 0 <= j < LineCount && LineOwner(cells, j) == Some(t)) <==> HasFour(cells, t)
  {
    if exists j :: 0 <= j < LineCount && LineOwner(cells, j) == Some(t) {
      var j :| 0 <= j < LineCount && LineOwner(cells, j) == Some(t);
      LineOwnerHasFour(cells, j, t);
    }
    if HasFour(cells, t) {
      var j := FourOwnedLine(cells, t);
    }
  }

  /** A line of the table owned by `t`, found from a geometric four-in-a-row. */
  lemma FourOwnedLine(cells: seq<Tile>, t: Tile) returns (j: nat)
    requires |cells| == CellCount && HasFour(cells, t)
    ensures j < LineCount && LineOwner(cells, j) == Some(t)
  {
    if exists r :: 0 <= r < Rows && RowOf(cells, r, t) {
      var r :| 0 <= r < Rows && RowOf(cells, r, t);
      assert Cell(cells, r, 0) == t && Cell(cells, r, 1) == t && Cell(cells, r, 2) == t && Cell(cells, r, 3) == t;
      j := 5 - r;
    } else if exists c :: 0 <= c < Cols && ColumnOf(cells, c, t) {
      var c :| 0 <= c < Cols && ColumnOf(cells, c, t);
      assert Cell(cells, 0, c) == t && Cell(cells, 1, c) == t && Cell(cells, 2, c) == t && Cell(cells, 3, c) == t;
      j := 6 + c;
    } else if forall k :: 0 <= k < Rows ==> Cell(cells, k, k) == t {
      assert Cell(cells, 0, 0) == t && Cell(cells, 1, 1) == t && Cell(cells, 2, 2) == t && Cell(cells, 3, 3) == t;
      j := 0;
    } else {
      assert AntiDiagonal(cells, 0) == t && AntiDiagonal(cells, 1) == t && AntiDiagonal(cells, 2) == t && AntiDiagonal(cells, 3) == t;
      j := 1;
    }
  }

  // ---------------------------------------------------------------------------
  // Placing a tile

  /** `row` is where a token dropped into `col` comes to rest: it is empty and
      every cell below it (higher row) is occupied. */
  predicate IsLanding(cells: seq<Tile>, col: nat, row: nat)
    requires |cells| == CellCount && col < Cols
  {
    && row < Rows
    && Cell(cells, row, col) == Empty
    && forall j :: row < j < Rows ==> Cell(cells, j, col) != Empty
  }

  /** The scan of `place`: rows i, i-1, ..., 0 of column `col`; the first empty one. */
  function LandingRow(cells: seq<Tile>, col: nat, i: nat): (r: nat)
    requires |cells| == CellCount && col < Cols && i < Rows
    requires Cell(cells, 0, col) == Empty
    ensures r <= i && Cell(cells, r, col) == Empty
    ensures forall j :: r < j <= i ==> Cell(cells, j, col) != Empty
  {
    if Cell(cells, i, col) == Empty then i else LandingRow(cells, col, i - 1)
  }

  /** `Board::place`. The column-full test comes before the game-over test. */
  function Place(b: Board, tile: Tile, col: nat): (r: Result<Board, MoveError>)
    requires ValidBoard(b) && col < Cols
    ensures Cell(b.cells, 0, col) != Empty <==> r == Err(ColumnFull)
    ensures Cell(b.cells, 0, col) == Empty && b.winner.Some? <==> r == Err(GameOver)
    ensures r.Ok? ==> ValidBoard(r.value) && r.value.winner == Outcome(r.value.cells)
    ensures r.Ok? ==> exists row: nat :: IsLanding(b.cells, col, row) && r.value.cells == b.cells[4 * row + col := tile]
  {
    if Cell(b.cells, 0, col) != Empty then Err(ColumnFull)
    else if b.winner.Some? then Err(GameOver)
    else
      var row := LandingRow(b.cells, col, Rows - 1);
      assert IsLanding(b.cells, col, row);
      Ok(CheckWinner(Board(b.cells[4 * row + col := tile], b.winner)))
  }

  /** Overwriting one empty cell with a team's tile lowers the empty count by one. */
  lemma FillOneCell(cells: seq<Tile>, k: nat, tile: Tile)
    requires k < |cells| && cells[k] == Empty && tile != Empty
    ensures EmptyCount(cells[k := tile]) + 1 == EmptyCount(cells)
  {
    assert cells == cells[..k] + [Empty] + cells[k + 1..];
    assert cells[k := tile] == cells[..k] + [tile] + cells[k + 1..];
  }

  /** A successful move fills exactly one empty cell with a team's tile and
      empties none. */
  lemma PlaceFillsOneCell(b: Board, tile: Tile, col: nat)
    requires ValidBoard(b) && col < Cols && tile != Empty
    requires Place(b, tile, col).Ok?
    ensures var c := Place(b, tile, col).value.cells;
      && EmptyCount(c) + 1 == EmptyCount(b.cells)
      && (forall i :: 0 <= i < CellCount && b.cells[i] != Empty ==> c[i] == b.cells[i])
      && (exists k :: 0 <= k < CellCount && b.cells[k] == Empty && c == b.cells[k := tile])
  {
    var c := Place(b, tile, col).value.cells;
    var row: nat :| IsLanding(b.cells, col, row) && c == b.cells[4 * row + col := tile];
    var k := 4 * row + col;
    assert b.cells[k] == Empty;
    FillOneCell(b.cells, k, tile);
  }

  // ---------------------------------------------------------------------------
  // Reachable boards

  /** Gravity: an occupied cell always rests on an occupied cell (or the bottom row). */
  predicate Settled(cells: seq<Tile>)
    requires |cells| == CellCount
  {
    forall row, col :: 0 <= row < Rows - 1 && 0 <= col < Cols && Cell(cells, row, col) != Empty ==>
      Cell(cells, row + 1, col) != Empty
  }

  /** A condition every board reachable from the default board by moves
      satisfies: well formed, settled, and its winner is the one its cells
      call for. Not every board meeting it is reachable: play stops at the
      first completed line, which this condition does not record. */
  predicate Reachable(b: Board) {
    ValidBoard(b) && Settled(b.cells) && b.winner == Outcome(b.cells)
  }

  lemma DefaultReachable()
    ensures Reachable(Default())
  {
    var c := Default().cells;
    forall j | 0 <= j < LineCount ensures LineOwner(c, j).None? {
      assert c[WinLine(j)[0]] == Empty;
    }
    assert c[0] == Empty;
  }

  /** Under gravity, an occupied cell has only occupied cells below it. */
  lemma {:induction false} StackBelow(cells: seq<Tile>, col: nat, row: nat)
    requires |cells| == CellCount && col < Cols && row < Rows && Settled(cells)
    requires Cell(cells, row, col) != Empty
    ensures forall j :: row <= j < Rows ==> Cell(cells, j, col) != Empty
    decreases Rows - row
  {
    if row < Rows - 1 {
      assert Cell(cells, row + 1, col) != Empty;
      StackBelow(cells, col, row + 1);
    }
  }

  /** Under gravity, the landing row lies directly on top of the column's
      stack: every cell above it is empty. */
  lemma LandingOnStack(cells: seq<Tile>, col: nat, row: nat)
    requires |cells| == CellCount && col < Cols && Settled(cells)
    requires IsLanding(cells, col, row)
    ensures forall j :: 0 <= j <= row ==> Cell(cells, j, col) == Empty
  {
    forall j | 0 <= j <= row ensures Cell(cells, j, col) == Empty {
      if Cell(cells, j, col) != Empty {
        StackBelow(cells, col, j);
        assert false;
      }
    }
  }

  /** Dropping a tile onto the stack of a settled column keeps the board settled. */
  lemma DropKeepsSettled(cells: seq<Tile>, col: nat, row: nat, tile: Tile)
    requires |cells| == CellCount && col < Cols && Settled(cells)
    requires IsLanding(cells, col, row)
    ensures Settled(cells[4 * row + col := tile])
  {
    var c := cells[4 * row + col := tile];
    LandingOnStack(cells, col, row);
    forall rw, cl | 0 <= rw < Rows - 1 && 0 <= cl < Cols
      ensures Cell(c, rw, cl) != Empty ==> Cell(c, rw + 1, cl) != Empty
    {
      if cl != col || rw > row {
        assert Cell(c, rw, cl) == Cell(cells, rw, cl);
        assert Cell(c, rw + 1, cl) == Cell(cells, rw + 1, cl);
      } else if rw < row {
        assert Cell(c, rw, cl) == Cell(cells, rw, cl) == Empty;
      } else {
        assert Cell(c, rw + 1, cl) == Cell(cells, rw + 1, cl);
      }
    }
  }

  /** `place` keeps a reachable board reachable. */
  lemma PlacePreservesReachable(b: Board, tile: Tile, col: nat)
    requires Reachable(b) && col < Cols
    ensures Place(b, tile, col).Ok? ==> Reachable(Place(b, tile, col).value)
  {
    var r := Place(b, tile, col);
    if r.Ok? {
      var row: nat :| IsLanding(b.cells, col, row) && r.value.cells == b.cells[4 * row + col := tile];
      DropKeepsSettled(b.cells, col, row, tile);
    }
  }

  /** Once the game is over, every move is refused and the board stays as it is. */
  lemma GameOverIsFinal(b: Board, tile: Tile, col: nat)
    requires ValidBoard(b) && col < Cols && b.winner.Some?
    ensures Place(b, tile, col).Err?
  {
  }

  // ---------------------------------------------------------------------------
  // Random boards

  /** `Board::new_random`: cell i is Cookie when draw `start + i` of the bit
      stream is true and Milk otherwise; then the winner is computed. */
  function NewRandom(bits: nat -> bool, start: nat): (b: Board)
    ensures ValidBoard(b) && Full(b.cells)
    ensures forall i :: 0 <= i < CellCount ==> b.cells[i] == if bits(start + i) then Cookie else Milk
    ensures b.winner.Some?
    ensures b.winner == Outcome(b.cells)
  {
    var cells := DealtCells(bits, start);
    CheckWinner(Board(cells, None))
  }

  /** A dealt board is always decided: it is a draw exactly when neither team
      has four in a row, and otherwise the winner has four in a row. */
  lemma NewRandomDecided(bits: nat -> bool, start: nat)
    ensures var b := NewRandom(bits, start);
      && (b.winner == Some(Empty) <==> !HasFour(b.cells, Cookie) && !HasFour(b.cells, Milk))
      && (b.winner.value != Empty ==> HasFour(b.cells, b.winner.value))
  {
    var b := NewRandom(bits, start);
    LinesMatchGeometry(b.cells, Cookie);
    LinesMatchGeometry(b.cells, Milk);
    if SomeLineWins(b.cells) {
      var j :| 0 <= j < LineCount && LineOwner(b.cells, j).Some?;
      LinesMatchGeometry(b.cells, LineOwner(b.cells, j).value);
    }
  }

  /** The sixteen cells dealt from the bit stream, starting at draw `start`. */
  function DealtCells(bits: nat -> bool, start: nat): (cells: seq<Tile>)
    ensures |cells| == CellCount && Full(cells)
    ensures forall i :: 0 <= i < CellCount ==> cells[i] == if bits(start + i) then Cookie else Milk
  {
    var cells := seq(CellCount, i requires 0 <= i => if bits(start + i) then Cookie else Milk);
    assert forall i :: 0 <= i < CellCount ==> cells[i] != Empty;
    cells
  }

  // ---------------------------------------------------------------------------
  // A worked game

  lemma LandingUnique(cells: seq<Tile>, col: nat, r1: nat, r2: nat)
    requires |cells| == CellCount && col < Cols
    requires IsLanding(cells, col, r1) && IsLanding(cells, col, r2)
    ensures r1 == r2
  {
  }

  /** On a running game, a token dropped into a column that has room lands on
      its landing row and the winner is then recomputed. */
  lemma PlaceLands(b: Board, tile: Tile, col: nat, row: nat)
    requires ValidBoard(b) && col < Cols && b.winner == None
    requires Cell(b.cells, 0, col) == Empty && IsLanding(b.cells, col, row)
    ensures Place(b, tile, col) == Ok(CheckWinner(Board(b.cells[4 * row + col := tile], None)))
  {
    var r := LandingRow(b.cells, col, Rows - 1);
    assert IsLanding(b.cells, col, r);
    LandingUnique(b.cells, col, r, row);
  }

  lemma NoLineOwned(cells: seq<Tile>)
    requires |cells| == CellCount
    requires forall j :: 0 <= j < LineCount ==> LineOwner(cells, j).None?
    ensures FirstWinFrom(cells, 0).None?
  {
  }

  /** The cells after k cookies were dropped into the first column of the empty board. */
  function CookieColumn(k: nat): (c: seq<Tile>)
    requires k <= Rows
    ensures |c| == CellCount
  {
    var E, C := Empty, Cookie;
    match k
    case 0 => [E, E, E, E, E, E, E, E, E, E, E, E, E, E, E, E]
    case 1 => [E, E, E, E, E, E, E, E, E, E, E, E, C, E, E, E]
    case 2 => [E, E, E, E, E, E, E, E, C, E, E, E, C, E, E, E]
    case 3 => [E, E, E, E, C, E, E, E, C, E, E, E, C, E, E, E]
    case _ => [C, E, E, E, C, E, E, E, C, E, E, E, C, E, E, E]
  }

  lemma NoOwnerBeforeFour(k: nat)
    requires k < Rows
    ensures forall j :: 0 <= j < LineCount ==> LineOwner(CookieColumn(k), j).None?
  {
    var c := CookieColumn(k);
    forall j | 0 <= j < LineCount ensures LineOwner(c, j).None? {
      assert j == 0 || j == 1 || j == 2 || j == 3 || j == 4 || j == 5 || j == 6 || j == 7 || j == 8 || j == 9;
    }
  }

  lemma CookieColumnOutcome(k: nat)
    requires 0 < k <= Rows
    ensures CheckWinner(Board(CookieColumn(k), None)).winner == if k == Rows then Some(Cookie) else None
  {
    if k < Rows {
      CookieColumnRunning(k);
    } else {
      CookieColumnWon();
    }
  }

  lemma CookieColumnRunning(k: nat)
    requires k < Rows
    ensures FirstWinFrom(CookieColumn(k), 0).None? && !Full(CookieColumn(k))
  {
    NoOwnerBeforeFour(k);
    NoLineOwned(CookieColumn(k));
    assert CookieColumn(k)[1] == Empty;
  }

  lemma CookieColumnWon()
    ensures FirstWinFrom(CookieColumn(Rows), 0) == Some(Cookie)
  {
    var c := CookieColumn(Rows);
    assert LineOwner(c, 0).None? && LineOwner(c, 1).None? && LineOwner(c, 2).None?;
    assert LineOwner(c, 3).None? && LineOwner(c, 4).None? && LineOwner(c, 5).None?;
    assert LineOwner(c, 6) == Some(Cookie);
  }

  lemma CookieColumnStep(k: nat)
    requires k < Rows
    ensures Place(Board(CookieColumn(k), None), Cookie, 0) ==
      Ok(Board(CookieColumn(k + 1), if k + 1 == Rows then Some(Cookie) else None))
  {
    var row := Rows - 1 - k;
    assert IsLanding(CookieColumn(k), 0, row);
    PlaceLands(Board(CookieColumn(k), None), Cookie, 0, row);
    DropCookie(k);
    CookieColumnOutcome(k + 1);
  }

  lemma DropCookie(k: nat)
    requires k < Rows
    ensures CookieColumn(k)[4 * (Rows - 1 - k) := Cookie] == CookieColumn(k + 1)
  {
    match k
    case 0 =>
    case 1 =>
    case 2 =>
    case 3 =>
  }

  /** `n` moves of one team into one column, stopping at the first refused move. */
  function Drops(b: Board, tile: Tile, col: nat, n: nat): (r: Result<Board, MoveError>)
    requires ValidBoard(b) && col < Cols
    ensures r.Ok? ==> ValidBoard(r.value)
  {
    if n == 0 then Ok(b)
    else match Drops(b, tile, col, n - 1)
      case Ok(b') => Place(b', tile, col)
      case Err(e) => Err(e)
  }

  /** Four cookies dropped into the first column of the empty board win the
      game; a fifth is refused because the column is full. */
  lemma FourInAColumnWins()
    ensures Drops(Default(), Cookie, 0, 4).Ok? && Drops(Default(), Cookie, 0, 4).value.winner == Some(Cookie)
    ensures Drops(Default(), Cookie, 0, 5) == Err(ColumnFull)
  {
    assert Default() == Board(CookieColumn(0), None);
    CookieColumnStep(0);
    CookieColumnStep(1);
    CookieColumnStep(2);
    CookieColumnStep(3);
    assert Drops(Default(), Cookie, 0, 4) == Ok(Board(CookieColumn(4), Some(Cookie)));
    assert Cell(CookieColumn(4), 0, 0) == Cookie;
  }
}
