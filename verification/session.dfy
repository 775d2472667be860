/** The game session behind the day-12 endpoints (src/day12.rs): one board and
    one seeded random stream, changed only by the four commands.

    The lock around the pair is left out; each command is a pure step from
    one session to the next. The seeded generator is abstracted as its
    output, a stream of booleans, and the session remembers how many draws
    it has taken from the stream. Reseeding with the fixed seed rewinds that
    count to zero. */
module GameSession {
  import opened Wrappers
  import opened MilkCookie
  import opened BoardDisplay

  datatype Session = Session(board: Board, drawn: nat)

  /** What a handler answers: a board rendering, a board rendering flagged as
      "service unavailable" (a refused move), or "bad request" without a body. */
  datatype Response = Rendered(lines: seq<Line>) | Unavailable(lines: seq<Line>) | BadRequest

  /** The four commands the endpoints map to. */
  datatype Command = GetBoard | Reset | PlaceTile(team: string, column: int) | RandomBoard

  predicate ValidSession(s: Session) {
    ValidBoard(s.board)
  }

  /** The session the router starts with: the default board and a fresh stream. */
  function Start(): (s: Session)
    ensures ValidSession(s) && s.drawn == 0
    ensures s.board.winner == None && EmptyCount(s.board.cells) == CellCount
  {
    assert multiset(Default().cells)[Empty] == CellCount by {
      assert Default().cells == seq(CellCount, _ => Empty);
      EmptyBoardCount();
    }
    Session(Default(), 0)
  }

  lemma EmptyBoardCount()
    ensures multiset(seq(CellCount, _ => Empty))[Empty] == CellCount
  {
    var e := seq(CellCount, _ => Empty);
    assert e == [Empty, Empty, Empty, Empty, Empty, Empty, Empty, Empty,
                 Empty, Empty, Empty, Empty, Empty, Empty, Empty, Empty];
  }

  /** The team segment of the place route: exactly "cookie" or "milk". */
  function ParseTeam(team: string): (t: Option<Tile>)
    ensures t == Some(Cookie) <==> team == "cookie"
    ensures t == Some(Milk) <==> team == "milk"
    ensures t != Some(Empty)
  {
    if team == "cookie" then Some(Cookie)
    else if team == "milk" then Some(Milk)
    else None
  }

  /** The column segment of the place route, a `u8` counted from 1; accepted
      only in 1..4 and converted to a column index counted from 0. */
  function ParseColumn(column: int): (c: Option<nat>)
    requires 0 <= column < 256
    ensures c.Some? <==> 1 <= column <= Cols
    ensures c.Some? ==> c.value < Cols && c.value + 1 == column
  {
    if column == 0 || column > 4 then None else Some(column - 1)
  }

  /** Every board column is addressed by exactly one route column. */
  lemma ParseColumnOnto(col: nat)
    requires col < Cols
    ensures ParseColumn(col + 1) == Some(col)
  {
  }

  /** `get_board`: render the current board; nothing changes. */
  function GetBoardStep(s: Session): (r: (Session, Response))
    requires ValidSession(s)
    ensures r.0 == s && r.1 == Rendered(Render(s.board))
  {
    (s, Rendered(Render(s.board)))
  }

  /** `reset_board`: a fresh default board and a stream rewound to its seed. */
  function ResetStep(s: Session): (r: (Session, Response))
    requires ValidSession(s)
    ensures r.0 == Start()
    ensures r.1 == Rendered(Render(Default()))
  {
    var s' := Session(Default(), 0);
    (s', Rendered(Render(s'.board)))
  }

  /** `random_board`: a random board dealt from the next sixteen draws. The
      handler only renders it: the session's board is kept, and only the
      stream advances. */
  function RandomBoardStep(s: Session, stream: nat -> bool): (r: (Session, Response))
    requires ValidSession(s)
    ensures r.0.board == s.board && r.0.drawn == s.drawn + CellCount
    ensures r.1 == Rendered(Render(NewRandom(stream, s.drawn)))
    ensures |r.1.lines| == Rows + 2
  {
    var b := NewRandom(stream, s.drawn);
    (Session(s.board, s.drawn + CellCount), Rendered(Render(b)))
  }

  /** `place`: validate the route segments, then try the move. A malformed
      request changes nothing and has no body; a refused move changes
      nothing and shows the current board. */
  function PlaceStep(s: Session, team: string, column: int): (r: (Session, Response))
    requires ValidSession(s) && 0 <= column < 256
    ensures r.1 == BadRequest <==> ParseTeam(team).None? || ParseColumn(column).None?
    ensures r.1.BadRequest? || r.1.Unavailable? ==> r.0 == s
    ensures r.1.Unavailable? ==> r.1.lines == Render(s.board)
    ensures r.1.Unavailable? <==>
      ParseTeam(team).Some? && ParseColumn(column).Some? &&
      Place(s.board, ParseTeam(team).value, ParseColumn(column).value).Err?
    ensures r.1.Rendered? ==>
      && ValidSession(r.0) && r.0.drawn == s.drawn
      && r.0.board == Place(s.board, ParseTeam(team).value, ParseColumn(column).value).value
      && r.1.lines == Render(r.0.board)
  {
    match (ParseTeam(team), ParseColumn(column))
    case (Some(tile), Some(col)) =>
      (match Place(s.board, tile, col)
       case Ok(b) => var s' := Session(b, s.drawn); (s', Rendered(Render(s'.board)))
       case Err(_) => (s, Unavailable(Render(s.board))))
    case _ => (s, BadRequest)
  }

  /** The four routes: `/12/board`, `/12/reset`, `/12/place/:team/:column`
      and `/12/random-board`. */
  function Step(s: Session, cmd: Command, stream: nat -> bool): (r: (Session, Response))
    requires ValidSession(s)
    ensures ValidSession(r.0)
    ensures cmd.GetBoard? || cmd.RandomBoard? ==> r.0.board == s.board
    ensures cmd.Reset? ==> r.0 == Start()
    ensures cmd.RandomBoard? ==> r.0.drawn == s.drawn + CellCount
    ensures cmd.GetBoard? || cmd.PlaceTile? ==> r.0.drawn == s.drawn
    ensures r.1.BadRequest? || r.1.Unavailable? ==> cmd.PlaceTile? && r.0 == s
    ensures cmd.GetBoard? ==> r.1 == Rendered(Render(s.board))
    ensures cmd.Reset? ==> r.1 == Rendered(Render(Default()))
    ensures cmd.RandomBoard? ==> r.1 == Rendered(Render(NewRandom(stream, s.drawn)))
    ensures cmd.PlaceTile? && 0 <= cmd.column < 256 ==> r == PlaceStep(s, cmd.team, cmd.column)
    ensures cmd.PlaceTile? && !(0 <= cmd.column < 256) ==> r == (s, BadRequest)
  {
    match cmd
    case GetBoard => GetBoardStep(s)
    case Reset => ResetStep(s)
    case PlaceTile(team, column) =>
      if 0 <= column < 256 then PlaceStep(s, team, column) else (s, BadRequest)
    case RandomBoard => RandomBoardStep(s, stream)
  }

  /** Runs a sequence of commands, collecting the responses. */
  function Run(s: Session, cmds: seq<Command>, stream: nat -> bool): (r: (Session, seq<Response>))
    requires ValidSession(s)
    ensures ValidSession(r.0) && |r.1| == |cmds|
    ensures forall k :: 0 <= k < |cmds| ==> (r.1[k].BadRequest? ==> cmds[k].PlaceTile?)
    decreases |cmds|
  {
    if cmds == [] then (s, [])
    else
      var (s1, resp) := Step(s, cmds[0], stream);
      var (s2, rest) := Run(s1, cmds[1..], stream);
      (s2, [resp] + rest)
  }

  /** The k-th response of a run is the one `Step` gives to the k-th command
      in the session the first k commands lead to. */
  lemma {:induction false} RunAnswers(s: Session, cmds: seq<Command>, stream: nat -> bool)
    requires ValidSession(s)
    ensures forall k :: 0 <= k < |cmds| ==>
      Run(s, cmds, stream).1[k] == Step(Run(s, cmds[..k], stream).0, cmds[k], stream).1
    decreases |cmds|
  {
    if cmds != [] {
      var s1 := Step(s, cmds[0], stream).0;
      RunAnswers(s1, cmds[1..], stream);
      forall k | 0 <= k < |cmds|
        ensures Run(s, cmds, stream).1[k] == Step(Run(s, cmds[..k], stream).0, cmds[k], stream).1
      {
        if k > 0 {
          assert cmds[..k][0] == cmds[0];
          assert cmds[..k][1..] == cmds[1..][..k - 1];
          assert Run(s, cmds[..k], stream).0 == Run(s1, cmds[1..][..k - 1], stream).0;
        }
      }
    }
  }

  /** A run threads one session through its requests, as the shared state
      behind the handlers does: an empty run keeps the session, and the
      session after request k is what `Step` makes of the session the
      earlier requests left behind. */
  lemma {:induction false} RunSessions(s: Session, cmds: seq<Command>, stream: nat -> bool)
    requires ValidSession(s)
    ensures Run(s, [], stream).0 == s
    ensures forall k :: 0 <= k < |cmds| ==>
      Run(s, cmds[..k + 1], stream).0 == Step(Run(s, cmds[..k], stream).0, cmds[k], stream).0
    decreases |cmds|
  {
    if cmds != [] {
      var s1 := Step(s, cmds[0], stream).0;
      RunSessions(s1, cmds[1..], stream);
      forall k | 0 <= k < |cmds|
        ensures Run(s, cmds[..k + 1], stream).0 == Step(Run(s, cmds[..k], stream).0, cmds[k], stream).0
      {
        assert cmds[..k + 1][0] == cmds[0];
        assert cmds[..k + 1][1..] == cmds[1..][..k];
        assert Run(s, cmds[..k + 1], stream).0 == Run(s1, cmds[1..][..k], stream).0;
        if k > 0 {
          assert cmds[..k][0] == cmds[0];
          assert cmds[..k][1..] == cmds[1..][..k - 1];
          assert Run(s, cmds[..k], stream).0 == Run(s1, cmds[1..][..k - 1], stream).0;
          assert cmds[1..][k - 1] == cmds[k];
        } else {
          assert cmds[1..][..0] == [];
        }
      }
    }
  }

  /** Every command keeps the board reachable by play. */
  lemma StepPreservesReachable(s: Session, cmd: Command, stream: nat -> bool)
    requires ValidSession(s) && Reachable(s.board)
    ensures Reachable(Step(s, cmd, stream).0.board)
  {
    match cmd
    case Reset => DefaultReachable();
    case PlaceTile(team, column) =>
      if 0 <= column < 256 && ParseTeam(team).Some? && ParseColumn(column).Some? {
        PlacePreservesReachable(s.board, ParseTeam(team).value, ParseColumn(column).value);
      }
    case _ =>
  }

  lemma {:induction false} RunPreservesReachable(s: Session, cmds: seq<Command>, stream: nat -> bool)
    requires ValidSession(s) && Reachable(s.board)
    ensures Reachable(Run(s, cmds, stream).0.board)
    decreases |cmds|
  {
    if cmds != [] {
      StepPreservesReachable(s, cmds[0], stream);
      RunPreservesReachable(Step(s, cmds[0], stream).0, cmds[1..], stream);
    }
  }

  /** Every session reached from the start by any commands holds a board
      reachable by play: settled under gravity, with the winner its cells call for. */
  lemma StartedSessionsReachable(cmds: seq<Command>, stream: nat -> bool)
    ensures Reachable(Run(Start(), cmds, stream).0.board)
  {
    DefaultReachable();
    RunPreservesReachable(Start(), cmds, stream);
  }

  /** Apart from a reset, no command empties a cell or changes an occupied one. */
  lemma StepNeverEmptiesCells(s: Session, cmd: Command, stream: nat -> bool)
    requires ValidSession(s) && cmd != Reset
    ensures var b := Step(s, cmd, stream).0.board;
      && (forall i :: 0 <= i < CellCount && s.board.cells[i] != Empty ==> b.cells[i] == s.board.cells[i])
      && EmptyCount(b.cells) <= EmptyCount(s.board.cells)
  {
    match cmd
    case PlaceTile(team, column) =>
      if 0 <= column < 256 {
        var r := PlaceStep(s, team, column);
        if r.1.Rendered? {
          PlaceFillsOneCell(s.board, ParseTeam(team).value, ParseColumn(column).value);
        }
      }
    case GetBoard =>
    case RandomBoard =>
  }

  /** Without a reset, no run of commands ever empties a cell: the occupied
      cells before are occupied with the same tiles after. */
  lemma {:induction false} RunNeverEmptiesCells(s: Session, cmds: seq<Command>, stream: nat -> bool)
    requires ValidSession(s)
    requires forall k :: 0 <= k < |cmds| ==> cmds[k] != Reset
    ensures var b := Run(s, cmds, stream).0.board;
      && (forall i :: 0 <= i < CellCount && s.board.cells[i] != Empty ==> b.cells[i] == s.board.cells[i])
      && EmptyCount(b.cells) <= EmptyCount(s.board.cells)
    decreases |cmds|
  {
    if cmds != [] {
      var s1 := Step(s, cmds[0], stream).0;
      StepNeverEmptiesCells(s, cmds[0], stream);
      assert forall k :: 0 <= k < |cmds[1..]| ==> cmds[1..][k] == cmds[k + 1];
      RunNeverEmptiesCells(s1, cmds[1..], stream);
      assert Run(s, cmds, stream).0 == Run(s1, cmds[1..], stream).0;
    }
  }

  /** A reset forgets everything: whatever came before, the same commands
      after a reset give the same responses. */
  lemma ResetForgetsHistory(s1: Session, s2: Session, cmds: seq<Command>, stream: nat -> bool)
    requires ValidSession(s1) && ValidSession(s2)
    ensures Run(ResetStep(s1).0, cmds, stream) == Run(ResetStep(s2).0, cmds, stream)
  {
  }
}
