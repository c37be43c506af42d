/** The computer's move, calculate_ai_move of Gomoku/gomoku.cpp: the opening move in the
    centre, and otherwise a two-ply look-ahead from every candidate cell with the search of
    module GomokuSearch, keeping the first cell of strictly greatest value. */
module GomokuAi {
  import opened Options
  import opened GomokuBoard
  import opened GomokuRules
  import opened GomokuEval
  import opened GomokuSearch

  /** check_battle_state as the search's terminal test.  The search only ever asks it about
      boards with the anchor on them; anything else counts as over. */
  function GameOver(b: Board, a: Cell): bool
  {
    if IsBoard(b) && InBounds(a.0, a.1) then CheckBattleState(b, a) else true
  }

  /** assess_board_value as the search's evaluator; the search only evaluates boards. */
  function Evaluate(b: Board): int
  {
    if IsBoard(b) then AssessBoardValue(b) else 0
  }

  // ---------------------------------------------------------------------------------------
  // calculate_ai_move (Gomoku/gomoku.cpp:1050-1101)
  // ---------------------------------------------------------------------------------------

  /** The computer's cell: the centre before any move, otherwise the root loop's choice, which
      is None only when no cell is a candidate. */
  function CalculateAiMove(b: Board, a: Cell): (cell: Option<Cell>)
    requires IsBoard(b)
  {
    if a == (-1, -1) then Some((7, 7))
    else RootLoop(GameOver, Evaluate, b, a, 0, NegInf, None).cell
  }

  /** The move is the centre before any move; afterwards it is an empty cell next to a stone,
      the first in row-major order whose plain minimax value is the greatest of all
      candidates'. */
  lemma CalculateAiMoveMeaning(b: Board, a: Cell)
    requires IsBoard(b)
    ensures a == (-1, -1) ==> CalculateAiMove(b, a) == Some((7, 7))
    ensures a != (-1, -1) && CalculateAiMove(b, a).Some? ==>
      exists j :: FirstBest(GameOver, Evaluate, b, j) && CalculateAiMove(b, a) == Some((RowOf(j), ColOf(j)))
    ensures a != (-1, -1) && (exists j :: 0 <= j < Cells && Candidate(b, j) && RootValue(GameOver, Evaluate, b, j) != NegInf) ==>
      CalculateAiMove(b, a).Some?
  {
    if a != (-1, -1) {
      RootChoice(GameOver, Evaluate, b, a);
    }
  }

  /** The character position calculate_ai_move reports with its cell, X = column * 4 + 15 and
      Y = row * 2 + 2. */
  function AiMovePosition(b: Board, a: Cell): (xy: Option<(int, int)>)
    requires IsBoard(b)
  {
    match CalculateAiMove(b, a)
    case None => None
    case Some(rc) => Some(CellToScreen(rc.0, rc.1))
  }

  /** The reported position is the drawn point of the chosen cell: a click there decodes back
      to that cell. */
  lemma AiMovePositionDecodes(b: Board, a: Cell)
    requires IsBoard(b)
    ensures AiMovePosition(b, a).Some? <==> CalculateAiMove(b, a).Some?
    ensures AiMovePosition(b, a).Some? ==>
      DecodeClick(AiMovePosition(b, a).value.0, AiMovePosition(b, a).value.1) == CalculateAiMove(b, a)
  {
    CalculateAiMoveMeaning(b, a);
    if a != (-1, -1) && CalculateAiMove(b, a).Some? {
      var j :| FirstBest(GameOver, Evaluate, b, j) && CalculateAiMove(b, a) == Some((RowOf(j), ColOf(j)));
      CellOfIndex(j);
      DecodeClickRoundTrip(RowOf(j), ColOf(j), 0, 0);
    } else if a == (-1, -1) {
      DecodeClickRoundTrip(7, 7, 0, 0);
    }
  }

  lemma GameOverWhenFull()
    ensures StopsWhenFull(GameOver)
  {
  }

  /** After a move, with an empty cell left on the board, the computer always finds a move. */
  lemma CalculateAiMoveDefined(b: Board, a: Cell)
    requires IsBoard(b) && InBounds(a.0, a.1) && b[a.0][a.1] != 0 && !Full(b)
    ensures CalculateAiMove(b, a).Some?
  {
    var r, c :| 0 <= r < N && 0 <= c < N && b[r][c] == 0;
    EmptyNextToStone(b, (r, c), a);
    var r', c' :| InBounds(r', c') && b[r'][c'] == 0 && CheckNeighbors(b, r', c');
    var j := r' * N + c';
    assert RowOf(j) == r' && ColOf(j) == c';
    GameOverWhenFull();
    MinimaxAboveNegInf(GameOver, Evaluate, Place(b, r', c', -1), (r', c'), true, 2);
    assert Candidate(b, j) && RootValue(GameOver, Evaluate, b, j) != NegInf;
    CalculateAiMoveMeaning(b, a);
  }
}
