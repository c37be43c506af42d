/** The 15×15 Gomoku board of Gomoku/gomoku.cpp: stones, the candidate filter used by the
    search, the mapping between board cells and the console character positions of clicks,
    and the reset at the start of a battle.  A cell holds 0 when empty, 1 for the player's
    stone and -1 for the computer's. */
module GomokuBoard {
  import opened Options

  const N: int := 15

  type Board = seq<seq<int>>

  /** A (row, column) pair; the source keeps the last move as such a pair, (-1, -1) before
      the first move. */
  type Cell = (int, int)

  predicate IsBoard(b: Board)
  {
    |b| == N && forall r :: 0 <= r < N ==> |b[r]| == N
  }

  predicate InBounds(r: int, c: int)
  {
    0 <= r < N && 0 <= c < N
  }

  /** The board with one cell overwritten: a stone placed, or a tentative stone taken back. */
  function Place(b: Board, r: int, c: int, v: int): (p: Board)
    requires IsBoard(b) && InBounds(r, c)
    ensures IsBoard(p) && p[r][c] == v
    ensures forall i, j :: InBounds(i, j) && (i != r || j != c) ==> p[i][j] == b[i][j]
  {
    b[r := b[r][c := v]]
  }

  /** Taking back a stone put on an empty cell restores the board exactly. */
  lemma PlaceUndo(b: Board, r: int, c: int, v: int)
    requires IsBoard(b) && InBounds(r, c) && b[r][c] == 0
    ensures Place(Place(b, r, c, v), r, c, 0) == b
  {
    var p := Place(Place(b, r, c, v), r, c, 0);
    assert p[r] == b[r];
  }

  function EmptyBoard(): (b: Board)
    ensures IsBoard(b) && forall r, c :: InBounds(r, c) ==> b[r][c] == 0
  {
    seq(N, _ => seq(N, _ => 0))
  }

  /** No cell of the board is empty: the closing loops of check_battle_state
      (Gomoku/gomoku.cpp:1306-1311). */
  predicate Full(b: Board)
    requires IsBoard(b)
  {
    forall r, c :: 0 <= r < N && 0 <= c < N ==> b[r][c] != 0
  }

  // ---------------------------------------------------------------------------------------
  // initialize_battle (Gomoku/gomoku.cpp:812-819)
  // ---------------------------------------------------------------------------------------

  /** The battle state the rules read: the board and the last move. */
  datatype Battle = Battle(board: Board, anchor: Cell)

  /** The reset: every cell empty and no last move. */
  function InitializeBattle(): (bt: Battle)
    ensures IsBoard(bt.board) && bt.anchor == (-1, -1)
    ensures forall r, c :: InBounds(r, c) ==> bt.board[r][c] == 0
  {
    Battle(EmptyBoard(), (-1, -1))
  }

  // ---------------------------------------------------------------------------------------
  // check_neighbors (Gomoku/gomoku.cpp:1110-1145)
  // ---------------------------------------------------------------------------------------

  /** The eight tests of check_neighbors in their source order: up-left, up, up-right, left,
      right, down-left, down, down-right, each guarded by its bounds test. */
  function CheckNeighbors(b: Board, r: int, c: int): bool
    requires IsBoard(b) && InBounds(r, c)
  {
    if r - 1 >= 0 && c - 1 >= 0 && b[r - 1][c - 1] != 0 then true
    else if r - 1 >= 0 && b[r - 1][c] != 0 then true
    else if r - 1 >= 0 && c + 1 <= 14 && b[r - 1][c + 1] != 0 then true
    else if c - 1 >= 0 && b[r][c - 1] != 0 then true
    else if c + 1 <= 14 && b[r][c + 1] != 0 then true
    else if r + 1 <= 14 && c - 1 >= 0 && b[r + 1][c - 1] != 0 then true
    else if r + 1 <= 14 && b[r + 1][c] != 0 then true
    else if r + 1 <= 14 && c + 1 <= 14 && b[r + 1][c + 1] != 0 then true
    else false
  }

  /** Cell (i, j) is one of the eight cells around (r, c). */
  predicate Adjacent(r: int, c: int, i: int, j: int)
  {
    -1 <= i - r <= 1 && -1 <= j - c <= 1 && (i != r || j != c)
  }

  /** Some stone lies on one of the eight cells around (r, c). */
  ghost predicate StoneNextTo(b: Board, r: int, c: int)
    requires IsBoard(b)
  {
    exists i, j :: InBounds(i, j) && Adjacent(r, c, i, j) && b[i][j] != 0
  }

  /** The candidate filter holds exactly when a stone lies on one of the eight cells around. */
  lemma CheckNeighborsMeaning(b: Board, r: int, c: int)
    requires IsBoard(b) && InBounds(r, c)
    ensures CheckNeighbors(b, r, c) <==> StoneNextTo(b, r, c)
  {
    if StoneNextTo(b, r, c) {
      var i, j :| InBounds(i, j) && Adjacent(r, c, i, j) && b[i][j] != 0;
      assert i == r - 1 || i == r || i == r + 1;
      assert j == c - 1 || j == c || j == c + 1;
    }
  }

  /** On an empty board no cell is a candidate. */
  lemma EmptyBoardNoCandidate(r: int, c: int)
    requires InBounds(r, c)
    ensures !CheckNeighbors(EmptyBoard(), r, c)
  {
  }

  function Sign(x: int): int
  {
    if x < 0 then -1 else if x > 0 then 1 else 0
  }

  function Distance(e: Cell, s: Cell): nat
  {
    var dr := if e.0 < s.0 then s.0 - e.0 else e.0 - s.0;
    var dc := if e.1 < s.1 then s.1 - e.1 else e.1 - s.1;
    if dr < dc then dc else dr
  }

  /** A board with an empty cell and a stone has an empty cell next to a stone, so the
      candidate filter lets at least one cell through: walking from the empty cell toward
      the stone one king's step at a time, the last empty cell before the first stone is
      one. */
  lemma {:induction false} EmptyNextToStone(b: Board, e: Cell, s: Cell)
    requires IsBoard(b) && InBounds(e.0, e.1) && InBounds(s.0, s.1)
    requires b[e.0][e.1] == 0 && b[s.0][s.1] != 0
    ensures exists r, c :: InBounds(r, c) && b[r][c] == 0 && CheckNeighbors(b, r, c)
    decreases Distance(e, s)
  {
    var p := (e.0 + Sign(s.0 - e.0), e.1 + Sign(s.1 - e.1));
    assert InBounds(p.0, p.1) && Adjacent(e.0, e.1, p.0, p.1);
    if b[p.0][p.1] != 0 {
      CheckNeighborsMeaning(b, e.0, e.1);
    } else {
      EmptyNextToStone(b, p, s);
    }
  }

  // ---------------------------------------------------------------------------------------
  // Cells and console positions (Gomoku/gomoku.cpp:941-971, 1052-1057, 1096-1097)
  // ---------------------------------------------------------------------------------------

  /** The character position (X, Y) at which the cell's stone is drawn. */
  function CellToScreen(r: int, c: int): (xy: (int, int))
  {
    (c * 4 + 15, r * 2 + 2)
  }

  /** The position test and arithmetic of check_valid_placement as written: X in 15..71 and
      Y in 2..35 on the drawn grid points.  Both differences are non-negative there, so the
      source's truncating division and remainder agree with Dafny's. */
  function DecodeClickAsWritten(x: int, y: int): (cell: Option<Cell>)
  {
    if 15 <= x <= 71 && 2 <= y <= 35 && (x - 15) % 4 == 0 && (y - 2) % 2 == 0
    then Some(((y - 2) / 2, (x - 15) / 4))
    else None
  }

  /** The Y bound of the source admits two rows of grid points below the board. */
  lemma ClickBelowBoardAccepted()
    ensures DecodeClickAsWritten(15, 32) == Some((15, 0))
    ensures DecodeClickAsWritten(15, 34) == Some((16, 0))
    ensures !InBounds(15, 0) && !InBounds(16, 0)
  {
  }

  /** The position test with the Y bound of the last drawn row, 30 = 14 * 2 + 2. */
  function DecodeClick(x: int, y: int): (cell: Option<Cell>)
    ensures cell.Some? ==> InBounds(cell.value.0, cell.value.1)
  {
    if 15 <= x <= 71 && 2 <= y <= 30 && (x - 15) % 4 == 0 && (y - 2) % 2 == 0
    then Some(((y - 2) / 2, (x - 15) / 4))
    else None
  }

  /** Every cell's drawn position decodes back to that cell, and every accepted click is the
      drawn position of the cell it decodes to. */
  lemma DecodeClickRoundTrip(r: int, c: int, x: int, y: int)
    ensures InBounds(r, c) ==> DecodeClick(CellToScreen(r, c).0, CellToScreen(r, c).1) == Some((r, c))
    ensures DecodeClick(x, y) == Some((r, c)) ==> CellToScreen(r, c) == (x, y)
  {
  }

  /** On board cells the corrected test agrees with the source's. */
  lemma DecodeClickAgrees(x: int, y: int)
    ensures DecodeClick(x, y).Some? ==> DecodeClickAsWritten(x, y) == DecodeClick(x, y)
    ensures DecodeClickAsWritten(x, y).Some? && InBounds(DecodeClickAsWritten(x, y).value.0, DecodeClickAsWritten(x, y).value.1)
      ==> DecodeClick(x, y) == DecodeClickAsWritten(x, y)
  {
  }

  /** check_valid_placement: a plain left-button press (`leftPress`) on the drawn point of an
      empty cell places the player's stone there. */
  function CheckValidPlacement(b: Board, leftPress: bool, x: int, y: int): (cell: Option<Cell>)
    requires IsBoard(b)
  {
    if !leftPress then None
    else
      match DecodeClick(x, y)
      case None => None
      case Some(rc) => if b[rc.0][rc.1] == 0 then Some(rc) else None
  }

  /** check_valid_placement as written, on the source's Y bound: `beyond` is the value the
      board read of line 958 finds when the decoded row is 15 or 16, past the end of the
      board array. */
  function CheckValidPlacementAsWritten(b: Board, leftPress: bool, x: int, y: int, beyond: int): (cell: Option<Cell>)
    requires IsBoard(b)
  {
    if !leftPress then None
    else
      match DecodeClickAsWritten(x, y)
      case None => None
      case Some(rc) =>
        var held := if InBounds(rc.0, rc.1) then b[rc.0][rc.1] else beyond;
        if held == 0 then Some(rc) else None
  }

  /** The source's placement test agrees with the corrected one on every click that decodes to
      a board cell, and accepts a cell off the board when the memory past the board is zero. */
  lemma CheckValidPlacementAsWrittenAgrees(b: Board, leftPress: bool, x: int, y: int, beyond: int)
    requires IsBoard(b)
    ensures var w := CheckValidPlacementAsWritten(b, leftPress, x, y, beyond);
      w.Some? && InBounds(w.value.0, w.value.1) ==> w == CheckValidPlacement(b, leftPress, x, y)
    ensures CheckValidPlacement(b, leftPress, x, y).Some? ==>
      CheckValidPlacementAsWritten(b, leftPress, x, y, beyond) == CheckValidPlacement(b, leftPress, x, y)
    ensures CheckValidPlacementAsWritten(b, true, 15, 32, 0) == Some((15, 0))
  {
    DecodeClickAgrees(x, y);
  }

  /** A placement is accepted exactly for a left press on the drawn point of an empty cell. */
  lemma CheckValidPlacementMeaning(b: Board, leftPress: bool, x: int, y: int, r: int, c: int)
    requires IsBoard(b)
    ensures CheckValidPlacement(b, leftPress, x, y) == Some((r, c)) <==>
      leftPress && InBounds(r, c) && CellToScreen(r, c) == (x, y) && b[r][c] == 0
  {
    DecodeClickRoundTrip(r, c, x, y);
  }
}
