/** The look-ahead of Gomoku/gomoku.cpp, predict_board_value: a depth-limited minimax with
    alpha-beta cut-offs over the cells that are empty and have a neighbouring stone.  The
    source places each tentative stone on the global board, moves the last-move anchor onto
    it, recurses, and then takes the stone back and restores the anchor; the model threads
    the board and the anchor through the search in the same way, so that leaving them as
    they were is part of each call's contract.  Values are board values in tenths, with the
    two infinities standing for the source's numeric_limits sentinels.

    The search is stated for any terminal test `over` and any evaluator `assess`; the game
    (module GomokuAi) supplies check_battle_state and assess_board_value. */
module GomokuSearch {
  import opened Options
  import opened GomokuBoard

  // ---------------------------------------------------------------------------------------
  // Extended values
  // ---------------------------------------------------------------------------------------

  datatype Value = NegInf | Fin(n: int) | PosInf

  predicate Le(x: Value, y: Value)
  {
    x.NegInf? || y.PosInf? || (x.Fin? && y.Fin? && x.n <= y.n)
  }

  predicate Lt(x: Value, y: Value)
  {
    !Le(y, x)
  }

  function Min(x: Value, y: Value): Value
  {
    if Le(x, y) then x else y
  }

  function Max(x: Value, y: Value): Value
  {
    if Le(x, y) then y else x
  }

  /** x brought into the window [lo, hi]. */
  function Clamp(x: Value, lo: Value, hi: Value): Value
  {
    Max(lo, Min(x, hi))
  }

  /** Inside the widest window clamping changes nothing. */
  lemma ClampWidest(x: Value)
    ensures Clamp(x, NegInf, PosInf) == x
  {
  }

  // ---------------------------------------------------------------------------------------
  // Candidates: the cells the loops of the search try, in row-major order
  // ---------------------------------------------------------------------------------------

  const Cells: nat := N * N

  function RowOf(k: nat): int { k / N }
  function ColOf(k: nat): int { k % N }

  lemma CellOfIndex(k: nat)
    requires k < Cells
    ensures InBounds(RowOf(k), ColOf(k))
  {
  }

  /** The k-th cell in row-major order is empty and has a stone next to it. */
  predicate Candidate(b: Board, k: nat)
    requires IsBoard(b)
  {
    k < Cells && b[RowOf(k)][ColOf(k)] == 0 && CheckNeighbors(b, RowOf(k), ColOf(k))
  }

  // ---------------------------------------------------------------------------------------
  // predict_board_value (Gomoku/gomoku.cpp:1156-1234)
  // ---------------------------------------------------------------------------------------

  /** A terminal test on a board and its last move, and a board evaluator in tenths. */
  type OverTest = (Board, Cell) -> bool
  type Evaluator = Board -> int

  /** The value found and the board and anchor the search leaves behind. */
  datatype Outcome = Outcome(value: Value, board: Board, anchor: Cell)

  /** The search from a position whose last move is a, with the player to move when
      playerNext, looking depth moves ahead inside the window (alpha, beta): the computer's
      best value found so far and the player's. */
  function Predict(over: OverTest, assess: Evaluator, b: Board, a: Cell, playerNext: bool, depth: nat, alpha: Value, beta: Value): (o: Outcome)
    requires IsBoard(b) && InBounds(a.0, a.1)
    ensures o.board == b && o.anchor == a
    ensures depth == 0 || over(b, a) ==> o.value == Fin(assess(b))
    decreases depth, 1, 0
  {
    if depth == 0 || over(b, a) then Outcome(Fin(assess(b)), b, a)
    else if playerNext then MinLoop(over, assess, b, a, depth, alpha, beta, 0)
    else MaxLoop(over, assess, b, a, depth, alpha, beta, 0)
  }

  /** The player's loop from cell k on: each candidate gets the player's stone, is searched
      one level shallower with the anchor on it, and is taken back with the anchor restored;
      a lower value lowers beta, and the loop returns as soon as beta <= alpha. */
  function MinLoop(over: OverTest, assess: Evaluator, b: Board, a: Cell, depth: nat, alpha: Value, beta: Value, k: nat): (o: Outcome)
    requires IsBoard(b) && depth >= 1 && k <= Cells
    ensures o.board == b && o.anchor == a
    ensures Le(o.value, beta)
    decreases depth, 0, Cells - k
  {
    if k == Cells then Outcome(beta, b, a)
    else if Candidate(b, k) then
      var (r, c) := (RowOf(k), ColOf(k));
      var child := Predict(over, assess, Place(b, r, c, 1), (r, c), false, depth - 1, alpha, beta);
      var back := Place(child.board, r, c, 0);
      var beta' := if Lt(child.value, beta) then child.value else beta;
      PlaceUndo(b, r, c, 1);
      if Le(beta', alpha) then Outcome(beta', back, a)
      else MinLoop(over, assess, back, a, depth, alpha, beta', k + 1)
    else MinLoop(over, assess, b, a, depth, alpha, beta, k + 1)
  }

  /** The computer's loop from cell k on, the mirror image of MinLoop: a higher value raises
      alpha, and the loop returns as soon as beta <= alpha. */
  function MaxLoop(over: OverTest, assess: Evaluator, b: Board, a: Cell, depth: nat, alpha: Value, beta: Value, k: nat): (o: Outcome)
    requires IsBoard(b) && depth >= 1 && k <= Cells
    ensures o.board == b && o.anchor == a
    ensures Le(alpha, o.value)
    decreases depth, 0, Cells - k
  {
    if k == Cells then Outcome(alpha, b, a)
    else if Candidate(b, k) then
      var (r, c) := (RowOf(k), ColOf(k));
      var child := Predict(over, assess, Place(b, r, c, -1), (r, c), true, depth - 1, alpha, beta);
      var back := Place(child.board, r, c, 0);
      var alpha' := if Lt(alpha, child.value) then child.value else alpha;
      PlaceUndo(b, r, c, -1);
      if Le(beta, alpha') then Outcome(alpha', back, a)
      else MaxLoop(over, assess, back, a, depth, alpha', beta, k + 1)
    else MaxLoop(over, assess, b, a, depth, alpha, beta, k + 1)
  }

  // ---------------------------------------------------------------------------------------
  // Plain minimax over the same candidates, without a window
  // ---------------------------------------------------------------------------------------

  function Minimax(over: OverTest, assess: Evaluator, b: Board, a: Cell, playerNext: bool, depth: nat): Value
    requires IsBoard(b) && InBounds(a.0, a.1)
    decreases depth, 1, 0
  {
    if depth == 0 || over(b, a) then Fin(assess(b))
    else if playerNext then MinOver(over, assess, b, depth, 0)
    else MaxOver(over, assess, b, depth, 0)
  }

  /** The least value of the player's candidates from cell k on, +∞ when there are none. */
  function MinOver(over: OverTest, assess: Evaluator, b: Board, depth: nat, k: nat): Value
    requires IsBoard(b) && depth >= 1 && k <= Cells
    decreases depth, 0, Cells - k
  {
    if k == Cells then PosInf
    else if Candidate(b, k) then
      Min(Minimax(over, assess, Place(b, RowOf(k), ColOf(k), 1), (RowOf(k), ColOf(k)), false, depth - 1), MinOver(over, assess, b, depth, k + 1))
    else MinOver(over, assess, b, depth, k + 1)
  }

  /** The greatest value of the computer's candidates from cell k on, -∞ when there are none. */
  function MaxOver(over: OverTest, assess: Evaluator, b: Board, depth: nat, k: nat): Value
    requires IsBoard(b) && depth >= 1 && k <= Cells
    decreases depth, 0, Cells - k
  {
    if k == Cells then NegInf
    else if Candidate(b, k) then
      Max(Minimax(over, assess, Place(b, RowOf(k), ColOf(k), -1), (RowOf(k), ColOf(k)), true, depth - 1), MaxOver(over, assess, b, depth, k + 1))
    else MaxOver(over, assess, b, depth, k + 1)
  }

  // ---------------------------------------------------------------------------------------
  // Alpha-beta agrees with minimax inside the window
  // ---------------------------------------------------------------------------------------

  /** A player's reply at or below alpha cuts the loop off, and the value returned then
      clamps like the minimum over all replies. */
  lemma MinCut(v: Value, m: Value, rest: Value, alpha: Value, beta: Value)
    requires Lt(alpha, beta) && Clamp(v, alpha, beta) == Clamp(m, alpha, beta)
    requires Le(if Lt(v, beta) then v else beta, alpha)
    ensures Clamp(if Lt(v, beta) then v else beta, alpha, beta) == Clamp(Min(m, rest), alpha, beta)
  {
  }

  /** Otherwise the loop goes on with the lowered beta, and whatever clamps like the remaining
      replies inside the narrower window clamps like all of them inside the first. */
  lemma MinGo(v: Value, m: Value, rest: Value, x: Value, alpha: Value, beta: Value)
    requires Lt(alpha, beta) && Clamp(v, alpha, beta) == Clamp(m, alpha, beta)
    requires var beta' := if Lt(v, beta) then v else beta;
      Lt(alpha, beta') && Le(x, beta') && Clamp(x, alpha, beta') == Clamp(rest, alpha, beta')
    ensures Clamp(x, alpha, beta) == Clamp(Min(m, rest), alpha, beta)
  {
  }

  lemma MaxCut(v: Value, m: Value, rest: Value, alpha: Value, beta: Value)
    requires Lt(alpha, beta) && Clamp(v, alpha, beta) == Clamp(m, alpha, beta)
    requires Le(beta, if Lt(alpha, v) then v else alpha)
    ensures Clamp(if Lt(alpha, v) then v else alpha, alpha, beta) == Clamp(Max(m, rest), alpha, beta)
  {
  }

  lemma MaxGo(v: Value, m: Value, rest: Value, x: Value, alpha: Value, beta: Value)
    requires Lt(alpha, beta) && Clamp(v, alpha, beta) == Clamp(m, alpha, beta)
    requires var alpha' := if Lt(alpha, v) then v else alpha;
      Lt(alpha', beta) && Le(alpha', x) && Clamp(x, alpha', beta) == Clamp(rest, alpha', beta)
    ensures Clamp(x, alpha, beta) == Clamp(Max(m, rest), alpha, beta)
  {
  }

  /** One candidate of the player's loop: y is the loop's value from it, x the value from
      the next cell in the narrowed window, m the candidate's minimax value and rest the
      minimum over the later candidates. */
  lemma MinStep(v: Value, m: Value, rest: Value, alpha: Value, beta: Value, beta': Value, x: Value, y: Value)
    requires Lt(alpha, beta) && Clamp(v, alpha, beta) == Clamp(m, alpha, beta)
    requires beta' == (if Lt(v, beta) then v else beta)
    requires y == if Le(beta', alpha) then beta' else x
    requires !Le(beta', alpha) ==> Le(x, beta') && Clamp(x, alpha, beta') == Clamp(rest, alpha, beta')
    ensures Clamp(y, alpha, beta) == Clamp(Min(m, rest), alpha, beta)
  {
    if Le(beta', alpha) {
      MinCut(v, m, rest, alpha, beta);
    } else {
      MinGo(v, m, rest, x, alpha, beta);
    }
  }

  /** One candidate of the computer's loop, the mirror image of MinStep. */
  lemma MaxStep(v: Value, m: Value, rest: Value, alpha: Value, beta: Value, alpha': Value, x: Value, y: Value)
    requires Lt(alpha, beta) && Clamp(v, alpha, beta) == Clamp(m, alpha, beta)
    requires alpha' == (if Lt(alpha, v) then v else alpha)
    requires y == if Le(beta, alpha') then alpha' else x
    requires !Le(beta, alpha') ==> Le(alpha', x) && Clamp(x, alpha', beta) == Clamp(rest, alpha', beta)
    ensures Clamp(y, alpha, beta) == Clamp(Max(m, rest), alpha, beta)
  {
    if Le(beta, alpha') {
      MaxCut(v, m, rest, alpha, beta);
    } else {
      MaxGo(v, m, rest, x, alpha, beta);
    }
  }

  /** For a window with alpha < beta, the search returns a value that, brought into the
      window, is minimax's value brought into the window: the cut-offs never change a value
      that lies strictly inside it. */
  lemma {:induction false} PredictIsMinimax(over: OverTest, assess: Evaluator, b: Board, a: Cell, playerNext: bool, depth: nat, alpha: Value, beta: Value)
    requires IsBoard(b) && InBounds(a.0, a.1) && Lt(alpha, beta)
    ensures Clamp(Predict(over, assess, b, a, playerNext, depth, alpha, beta).value, alpha, beta) ==
            Clamp(Minimax(over, assess, b, a, playerNext, depth), alpha, beta)
    decreases depth, 1, 0
  {
    if depth == 0 || over(b, a) {
    } else if playerNext {
      MinLoopIsMinOver(over, assess, b, a, depth, alpha, beta, 0);
    } else {
      MaxLoopIsMaxOver(over, assess, b, a, depth, alpha, beta, 0);
    }
  }

  /** One candidate's step of the player's loop, after the stone is taken back. */
  lemma MinLoopStep(over: OverTest, assess: Evaluator, b: Board, a: Cell, depth: nat, alpha: Value, beta: Value, k: nat)
    requires IsBoard(b) && depth >= 1 && k < Cells && Candidate(b, k)
    ensures var v := Predict(over, assess, Place(b, RowOf(k), ColOf(k), 1), (RowOf(k), ColOf(k)), false, depth - 1, alpha, beta).value;
      var beta' := if Lt(v, beta) then v else beta;
      MinLoop(over, assess, b, a, depth, alpha, beta, k).value ==
        if Le(beta', alpha) then beta' else MinLoop(over, assess, b, a, depth, alpha, beta', k + 1).value
  {
    PlaceUndo(b, RowOf(k), ColOf(k), 1);
  }

  lemma {:induction false} MinLoopIsMinOver(over: OverTest, assess: Evaluator, b: Board, a: Cell, depth: nat, alpha: Value, beta: Value, k: nat)
    requires IsBoard(b) && depth >= 1 && k <= Cells && Lt(alpha, beta)
    ensures Clamp(MinLoop(over, assess, b, a, depth, alpha, beta, k).value, alpha, beta) == Clamp(MinOver(over, assess, b, depth, k), alpha, beta)
    decreases depth, 0, Cells - k, 1
  {
    if k < Cells {
      if Candidate(b, k) {
        var v, m, beta' := MinChild(over, assess, b, a, depth, alpha, beta, k);
        MinTail(over, assess, b, a, depth, alpha, beta, k, v, m, beta', MinLoop(over, assess, b, a, depth, alpha, beta, k).value);
      } else {
        MinLoopIsMinOver(over, assess, b, a, depth, alpha, beta, k + 1);
      }
    }
  }

  /** The rest of the player's loop after a candidate whose values are v and m: the loop's
      value y, brought into the window, is the lesser of m and the later candidates' values. */
  lemma MinTail(over: OverTest, assess: Evaluator, b: Board, a: Cell, depth: nat, alpha: Value, beta: Value, k: nat,
                v: Value, m: Value, beta': Value, y: Value)
    requires IsBoard(b) && depth >= 1 && k < Cells && Lt(alpha, beta)
    requires Clamp(v, alpha, beta) == Clamp(m, alpha, beta)
    requires beta' == if Lt(v, beta) then v else beta
    requires y == if Le(beta', alpha) then beta' else MinLoop(over, assess, b, a, depth, alpha, beta', k + 1).value
    ensures Clamp(y, alpha, beta) == Clamp(Min(m, MinOver(over, assess, b, depth, k + 1)), alpha, beta)
    decreases depth, 0, Cells - k, 0
  {
    var x := MinLoop(over, assess, b, a, depth, alpha, beta', k + 1).value;
    if !Le(beta', alpha) {
      MinLoopIsMinOver(over, assess, b, a, depth, alpha, beta', k + 1);
    }
    MinStep(v, m, MinOver(over, assess, b, depth, k + 1), alpha, beta, beta', x, y);
  }

  /** A candidate of the player's loop: v is its windowed search value and m its minimax
      value, which agree inside the window, and the loop goes on with the bound they move. */
  lemma MinChild(over: OverTest, assess: Evaluator, b: Board, a: Cell, depth: nat, alpha: Value, beta: Value, k: nat)
      returns (v: Value, m: Value, beta': Value)
    requires IsBoard(b) && depth >= 1 && k < Cells && Lt(alpha, beta) && Candidate(b, k)
    ensures Clamp(v, alpha, beta) == Clamp(m, alpha, beta)
    ensures beta' == if Lt(v, beta) then v else beta
    ensures MinOver(over, assess, b, depth, k) == Min(m, MinOver(over, assess, b, depth, k + 1))
    ensures MinLoop(over, assess, b, a, depth, alpha, beta, k).value ==
      if Le(beta', alpha) then beta' else MinLoop(over, assess, b, a, depth, alpha, beta', k + 1).value
    decreases depth, 0, Cells - k, 0
  {
    var (r, c) := (RowOf(k), ColOf(k));
    var p := Place(b, r, c, 1);
    v := Predict(over, assess, p, (r, c), false, depth - 1, alpha, beta).value;
    m := Minimax(over, assess, p, (r, c), false, depth - 1);
    beta' := if Lt(v, beta) then v else beta;
    PredictIsMinimax(over, assess, p, (r, c), false, depth - 1, alpha, beta);
    MinLoopStep(over, assess, b, a, depth, alpha, beta, k);
  }

  /** One candidate's step of the computer's loop, after the stone is taken back. */
  lemma MaxLoopStep(over: OverTest, assess: Evaluator, b: Board, a: Cell, depth: nat, alpha: Value, beta: Value, k: nat)
    requires IsBoard(b) && depth >= 1 && k < Cells && Candidate(b, k)
    ensures var v := Predict(over, assess, Place(b, RowOf(k), ColOf(k), -1), (RowOf(k), ColOf(k)), true, depth - 1, alpha, beta).value;
      var alpha' := if Lt(alpha, v) then v else alpha;
      MaxLoop(over, assess, b, a, depth, alpha, beta, k).value ==
        if Le(beta, alpha') then alpha' else MaxLoop(over, assess, b, a, depth, alpha', beta, k + 1).value
  {
    PlaceUndo(b, RowOf(k), ColOf(k), -1);
  }

  lemma {:induction false} MaxLoopIsMaxOver(over: OverTest, assess: Evaluator, b: Board, a: Cell, depth: nat, alpha: Value, beta: Value, k: nat)
    requires IsBoard(b) && depth >= 1 && k <= Cells && Lt(alpha, beta)
    ensures Clamp(MaxLoop(over, assess, b, a, depth, alpha, beta, k).value, alpha, beta) == Clamp(MaxOver(over, assess, b, depth, k), alpha, beta)
    decreases depth, 0, Cells - k, 1
  {
    if k < Cells {
      if Candidate(b, k) {
        var v, m, alpha' := MaxChild(over, assess, b, a, depth, alpha, beta, k);
        MaxTail(over, assess, b, a, depth, alpha, beta, k, v, m, alpha', MaxLoop(over, assess, b, a, depth, alpha, beta, k).value);
      } else {
        MaxLoopIsMaxOver(over, assess, b, a, depth, alpha, beta, k + 1);
      }
    }
  }

  /** The rest of the computer's loop after a candidate whose values are v and m: the loop's
      value y, brought into the window, is the greater of m and the later candidates' values. */
  lemma MaxTail(over: OverTest, assess: Evaluator, b: Board, a: Cell, depth: nat, alpha: Value, beta: Value, k: nat,
                v: Value, m: Value, alpha': Value, y: Value)
    requires IsBoard(b) && depth >= 1 && k < Cells && Lt(alpha, beta)
    requires Clamp(v, alpha, beta) == Clamp(m, alpha, beta)
    requires alpha' == if Lt(alpha, v) then v else alpha
    requires y == if Le(beta, alpha') then alpha' else MaxLoop(over, assess, b, a, depth, alpha', beta, k + 1).value
    ensures Clamp(y, alpha, beta) == Clamp(Max(m, MaxOver(over, assess, b, depth, k + 1)), alpha, beta)
    decreases depth, 0, Cells - k, 0
  {
    var x := MaxLoop(over, assess, b, a, depth, alpha', beta, k + 1).value;
    if !Le(beta, alpha') {
      MaxLoopIsMaxOver(over, assess, b, a, depth, alpha', beta, k + 1);
    }
    MaxStep(v, m, MaxOver(over, assess, b, depth, k + 1), alpha, beta, alpha', x, y);
  }

  /** A candidate of the computer's loop: v is its windowed search value and m its minimax
      value, which agree inside the window, and the loop goes on with the bound they move. */
  lemma MaxChild(over: OverTest, assess: Evaluator, b: Board, a: Cell, depth: nat, alpha: Value, beta: Value, k: nat)
      returns (v: Value, m: Value, alpha': Value)
    requires IsBoard(b) && depth >= 1 && k < Cells && Lt(alpha, beta) && Candidate(b, k)
    ensures Clamp(v, alpha, beta) == Clamp(m, alpha, beta)
    ensures alpha' == if Lt(alpha, v) then v else alpha
    ensures MaxOver(over, assess, b, depth, k) == Max(m, MaxOver(over, assess, b, depth, k + 1))
    ensures MaxLoop(over, assess, b, a, depth, alpha, beta, k).value ==
      if Le(beta, alpha') then alpha' else MaxLoop(over, assess, b, a, depth, alpha', beta, k + 1).value
    decreases depth, 0, Cells - k, 0
  {
    var (r, c) := (RowOf(k), ColOf(k));
    var p := Place(b, r, c, -1);
    v := Predict(over, assess, p, (r, c), true, depth - 1, alpha, beta).value;
    m := Minimax(over, assess, p, (r, c), true, depth - 1);
    alpha' := if Lt(alpha, v) then v else alpha;
    PredictIsMinimax(over, assess, p, (r, c), true, depth - 1, alpha, beta);
    MaxLoopStep(over, assess, b, a, depth, alpha, beta, k);
  }

  /** With the widest window the search returns exactly minimax's value. */
  lemma PredictWidest(over: OverTest, assess: Evaluator, b: Board, a: Cell, playerNext: bool, depth: nat)
    requires IsBoard(b) && InBounds(a.0, a.1)
    ensures Predict(over, assess, b, a, playerNext, depth, NegInf, PosInf).value == Minimax(over, assess, b, a, playerNext, depth)
  {
    PredictIsMinimax(over, assess, b, a, playerNext, depth, NegInf, PosInf);
    ClampWidest(Predict(over, assess, b, a, playerNext, depth, NegInf, PosInf).value);
    ClampWidest(Minimax(over, assess, b, a, playerNext, depth));
  }

  // ---------------------------------------------------------------------------------------
  // Values are never -∞ on the game's boards
  // ---------------------------------------------------------------------------------------

  /** The terminal test holds on every full board, as check_battle_state's does. */
  ghost predicate StopsWhenFull(over: OverTest)
  {
    forall b: Board, a: Cell :: IsBoard(b) && Full(b) ==> over(b, a)
  }

  /** The computer's candidates from cell k on include the j-th, so their greatest value is
      at least its value. */
  lemma {:induction false} MaxOverAtLeast(over: OverTest, assess: Evaluator, b: Board, depth: nat, k: nat, j: nat)
    requires IsBoard(b) && depth >= 1 && k <= j < Cells && Candidate(b, j)
    ensures Le(Minimax(over, assess, Place(b, RowOf(j), ColOf(j), -1), (RowOf(j), ColOf(j)), true, depth - 1),
               MaxOver(over, assess, b, depth, k))
    decreases Cells - k
  {
    if k < j {
      MaxOverAtLeast(over, assess, b, depth, k + 1, j);
    }
  }

  /** With a stone on the last move, the search's position never has value -∞: a move is
      always possible until the board is full, and a full board is terminal. */
  lemma {:induction false} MinimaxAboveNegInf(over: OverTest, assess: Evaluator, b: Board, a: Cell, playerNext: bool, depth: nat)
    requires IsBoard(b) && InBounds(a.0, a.1) && b[a.0][a.1] != 0 && StopsWhenFull(over)
    ensures Minimax(over, assess, b, a, playerNext, depth) != NegInf
    decreases depth, 1, 0
  {
    if depth == 0 || over(b, a) {
    } else if playerNext {
      MinOverAboveNegInf(over, assess, b, depth, 0);
    } else {
      assert !Full(b);
      var r, c :| 0 <= r < N && 0 <= c < N && b[r][c] == 0;
      EmptyNextToStone(b, (r, c), a);
      var r', c' :| InBounds(r', c') && b[r'][c'] == 0 && CheckNeighbors(b, r', c');
      var j := r' * N + c';
      assert RowOf(j) == r' && ColOf(j) == c';
      MaxOverAtLeast(over, assess, b, depth, 0, j);
      MinimaxAboveNegInf(over, assess, Place(b, r', c', -1), (r', c'), true, depth - 1);
    }
  }

  lemma {:induction false} MinOverAboveNegInf(over: OverTest, assess: Evaluator, b: Board, depth: nat, k: nat)
    requires IsBoard(b) && depth >= 1 && k <= Cells && StopsWhenFull(over)
    ensures MinOver(over, assess, b, depth, k) != NegInf
    decreases depth, 0, Cells - k
  {
    if k < Cells {
      if Candidate(b, k) {
        MinimaxAboveNegInf(over, assess, Place(b, RowOf(k), ColOf(k), 1), (RowOf(k), ColOf(k)), false, depth - 1);
      }
      MinOverAboveNegInf(over, assess, b, depth, k + 1);
    }
  }

  // ---------------------------------------------------------------------------------------
  // The root loop of calculate_ai_move
  // ---------------------------------------------------------------------------------------

  /** The computer's best value so far, its cell, and the board and last move left behind. */
  datatype Root = Root(best: Value, cell: Option<Cell>, board: Board, anchor: Cell)

  /** The root loop of calculate_ai_move (Gomoku/gomoku.cpp:1061-1091) from cell k on: each
      candidate gets the computer's stone and the anchor, is searched two moves deep with the
      window (best, +∞), and is taken back with the anchor restored; a strictly greater value
      becomes the best and its cell the choice. */
  function RootLoop(over: OverTest, assess: Evaluator, b: Board, a: Cell, k: nat, best: Value, cell: Option<Cell>): (o: Root)
    requires IsBoard(b) && k <= Cells
    ensures o.board == b && o.anchor == a
    decreases Cells - k
  {
    if k == Cells then Root(best, cell, b, a)
    else if Candidate(b, k) then
      var (r, c) := (RowOf(k), ColOf(k));
      var child := Predict(over, assess, Place(b, r, c, -1), (r, c), true, 2, best, PosInf);
      var back := Place(child.board, r, c, 0);
      PlaceUndo(b, r, c, -1);
      if Lt(best, child.value) then RootLoop(over, assess, back, a, k + 1, child.value, Some((r, c)))
      else RootLoop(over, assess, back, a, k + 1, best, cell)
    else RootLoop(over, assess, b, a, k + 1, best, cell)
  }

  /** The plain two-ply minimax value of putting the computer's stone on the k-th cell. */
  function RootValue(over: OverTest, assess: Evaluator, b: Board, k: nat): Value
    requires IsBoard(b) && k < Cells
  {
    Minimax(over, assess, Place(b, RowOf(k), ColOf(k), -1), (RowOf(k), ColOf(k)), true, 2)
  }

  /** Against the best value so far, the windowed search and plain minimax agree on whether a
      cell beats it, and on the value when it does. */
  lemma RootStep(v: Value, m: Value, best: Value)
    requires best == PosInf || Clamp(v, best, PosInf) == Clamp(m, best, PosInf)
    ensures Lt(best, v) <==> Lt(best, m)
    ensures Lt(best, v) ==> v == m
  {
  }

  /** Each cell's minimax value when it is a candidate, in row-major order. */
  function Scores(over: OverTest, assess: Evaluator, b: Board): (s: seq<Option<Value>>)
    requires IsBoard(b)
    ensures |s| == Cells
    ensures forall j :: 0 <= j < Cells ==>
      s[j] == if Candidate(b, j) then Some(RootValue(over, assess, b, j)) else None
  {
    seq(Cells, j requires 0 <= j < Cells => if Candidate(b, j) then Some(RootValue(over, assess, b, j)) else None)
  }

  /** The choice (ob, oc) is the argmax of the scores from cell k on, against the starting best value
      and choice: ob is at least the starting best and every score, and either it is
      the starting choice or oc is the first cell whose score is ob and beats the
      starting best. */
  ghost predicate Argmax(s: seq<Option<Value>>, k: nat, best: Value, cell: Option<Cell>, ob: Value, oc: Option<Cell>)
    requires k <= |s|
  {
    Le(best, ob) &&
    (forall j :: k <= j < |s| && s[j].Some? ==> Le(s[j].value, ob)) &&
    ((ob == best && oc == cell) ||
     (exists j :: k <= j < |s| && s[j].Some? && oc == Some((RowOf(j), ColOf(j))) &&
                  ob == s[j].value && Lt(best, ob) &&
                  (forall i :: k <= i < j && s[i].Some? ==> Lt(s[i].value, ob))))
  }

  /** A cell that is not a candidate, or whose score does not beat the best, changes nothing. */
  lemma ArgmaxKeep(s: seq<Option<Value>>, k: nat, best: Value, cell: Option<Cell>, ob: Value, oc: Option<Cell>)
    requires k < |s| && (s[k].None? || !Lt(best, s[k].value))
    requires Argmax(s, k + 1, best, cell, ob, oc)
    ensures Argmax(s, k, best, cell, ob, oc)
  {
    if ob != best || oc != cell {
      var j :| k + 1 <= j < |s| && s[j].Some? && oc == Some((RowOf(j), ColOf(j))) &&
               ob == s[j].value && Lt(best, ob) &&
               (forall i :: k + 1 <= i < j && s[i].Some? ==> Lt(s[i].value, ob));
      assert forall i :: k <= i < j && s[i].Some? ==> Lt(s[i].value, ob);
    }
  }

  /** A score that beats the best becomes the best, with its cell. */
  lemma ArgmaxTake(s: seq<Option<Value>>, k: nat, best: Value, cell: Option<Cell>, ob: Value, oc: Option<Cell>)
    requires k < |s| && s[k].Some? && Lt(best, s[k].value)
    requires Argmax(s, k + 1, s[k].value, Some((RowOf(k), ColOf(k))), ob, oc)
    ensures Argmax(s, k, best, cell, ob, oc)
  {
    var m := s[k].value;
    if ob == m && oc == Some((RowOf(k), ColOf(k))) {
      assert ob == s[k].value && Lt(best, ob);
    } else {
      var j :| k + 1 <= j < |s| && s[j].Some? && oc == Some((RowOf(j), ColOf(j))) &&
               ob == s[j].value && Lt(m, ob) &&
               (forall i :: k + 1 <= i < j && s[i].Some? ==> Lt(s[i].value, ob));
      assert forall i :: k <= i < j && s[i].Some? ==> Lt(s[i].value, ob);
    }
  }

  /** The best value and choice after cell k: its score replaces them only when strictly
      greater. */
  function NextBest(s: seq<Option<Value>>, k: nat, best: Value, cell: Option<Cell>): (Value, Option<Cell>)
    requires k < |s|
  {
    if s[k].Some? && Lt(best, s[k].value) then (s[k].value, Some((RowOf(k), ColOf(k)))) else (best, cell)
  }

  /** The argmax of the scores from cell k on, kept the way the root loop keeps it. */
  function ArgmaxFrom(s: seq<Option<Value>>, k: nat, best: Value, cell: Option<Cell>): (r: (Value, Option<Cell>))
    requires k <= |s|
    decreases |s| - k
  {
    if k == |s| then (best, cell)
    else
      var n := NextBest(s, k, best, cell);
      ArgmaxFrom(s, k + 1, n.0, n.1)
  }

  lemma {:induction false} ArgmaxFromMeaning(s: seq<Option<Value>>, k: nat, best: Value, cell: Option<Cell>)
    requires k <= |s|
    ensures Argmax(s, k, best, cell, ArgmaxFrom(s, k, best, cell).0, ArgmaxFrom(s, k, best, cell).1)
    decreases |s| - k
  {
    var r := ArgmaxFrom(s, k, best, cell);
    if k < |s| {
      if s[k].Some? && Lt(best, s[k].value) {
        ArgmaxFromMeaning(s, k + 1, s[k].value, Some((RowOf(k), ColOf(k))));
        ArgmaxTake(s, k, best, cell, r.0, r.1);
      } else {
        ArgmaxFromMeaning(s, k + 1, best, cell);
        ArgmaxKeep(s, k, best, cell, r.0, r.1);
      }
    }
  }

  /** One candidate of the root loop, in terms of its plain minimax value: it becomes the
      best exactly when that value beats the best so far. */
  lemma RootLoopCandidate(over: OverTest, assess: Evaluator, b: Board, a: Cell, k: nat, best: Value, cell: Option<Cell>)
    requires IsBoard(b) && k < Cells && Candidate(b, k)
    ensures var m := RootValue(over, assess, b, k);
      RootLoop(over, assess, b, a, k, best, cell) ==
        if Lt(best, m) then RootLoop(over, assess, b, a, k + 1, m, Some((RowOf(k), ColOf(k))))
        else RootLoop(over, assess, b, a, k + 1, best, cell)
  {
    var (r, c) := (RowOf(k), ColOf(k));
    var p := Place(b, r, c, -1);
    var v := Predict(over, assess, p, (r, c), true, 2, best, PosInf).value;
    var m := RootValue(over, assess, b, k);
    assert (Lt(best, v) <==> Lt(best, m)) && (Lt(best, v) ==> v == m) by {
      if best != PosInf {
        PredictIsMinimax(over, assess, p, (r, c), true, 2, best, PosInf);
      }
      RootStep(v, m, best);
    }
    PlaceUndo(b, r, c, -1);
  }

  /** One cell of the root loop moves it exactly as one cell of the argmax over the scores. */
  lemma RootLoopStep(over: OverTest, assess: Evaluator, b: Board, a: Cell, k: nat, best: Value, cell: Option<Cell>)
    requires IsBoard(b) && k < Cells
    ensures var n := NextBest(Scores(over, assess, b), k, best, cell);
      RootLoop(over, assess, b, a, k, best, cell) == RootLoop(over, assess, b, a, k + 1, n.0, n.1)
  {
    var sc := Scores(over, assess, b);
    if Candidate(b, k) {
      assert sc[k] == Some(RootValue(over, assess, b, k));
      RootLoopCandidate(over, assess, b, a, k, best, cell);
    } else {
      assert sc[k] == None;
    }
  }

  /** The root loop from cell k keeps the argmax of the candidates' plain minimax values:
      the cut-offs inside the search never change which cell wins or its value. */
  lemma {:induction false} RootLoopIsArgmaxFrom(over: OverTest, assess: Evaluator, b: Board, a: Cell, k: nat, best: Value, cell: Option<Cell>)
    requires IsBoard(b) && k <= Cells
    ensures var o := RootLoop(over, assess, b, a, k, best, cell);
      (o.best, o.cell) == ArgmaxFrom(Scores(over, assess, b), k, best, cell)
    decreases Cells - k
  {
    if k < Cells {
      var n := NextBest(Scores(over, assess, b), k, best, cell);
      RootLoopStep(over, assess, b, a, k, best, cell);
      RootLoopIsArgmaxFrom(over, assess, b, a, k + 1, n.0, n.1);
    }
  }

  /** The root loop's choice is the argmax of the candidates' plain minimax values. */
  lemma RootLoopArgmax(over: OverTest, assess: Evaluator, b: Board, a: Cell, k: nat, best: Value, cell: Option<Cell>)
    requires IsBoard(b) && k <= Cells
    ensures var o := RootLoop(over, assess, b, a, k, best, cell);
      Argmax(Scores(over, assess, b), k, best, cell, o.best, o.cell)
  {
    RootLoopIsArgmaxFrom(over, assess, b, a, k, best, cell);
    ArgmaxFromMeaning(Scores(over, assess, b), k, best, cell);
  }

  /** The argmax from the start: a chosen cell is the first with the greatest score, and a
      cell is chosen whenever some score is above minus infinity. */
  lemma ArgmaxStart(s: seq<Option<Value>>, ob: Value, oc: Option<Cell>)
    requires Argmax(s, 0, NegInf, None, ob, oc)
    ensures oc.Some? ==>
      exists j :: 0 <= j < |s| && s[j].Some? && oc == Some((RowOf(j), ColOf(j))) &&
        (forall i :: 0 <= i < |s| && s[i].Some? ==> Le(s[i].value, s[j].value)) &&
        (forall i :: 0 <= i < j && s[i].Some? ==> Lt(s[i].value, s[j].value))
    ensures (exists j :: 0 <= j < |s| && s[j].Some? && s[j].value != NegInf) ==> oc.Some?
  {
  }

  /** Cell j is a candidate whose minimax value is the greatest of all candidates', and no
      candidate before it in row-major order reaches that value. */
  ghost predicate FirstBest(over: OverTest, assess: Evaluator, b: Board, j: int)
    requires IsBoard(b)
  {
    0 <= j < Cells && Candidate(b, j) &&
    (forall i :: 0 <= i < Cells && Candidate(b, i) ==> Le(RootValue(over, assess, b, i), RootValue(over, assess, b, j))) &&
    (forall i :: 0 <= i < j && Candidate(b, i) ==> Lt(RootValue(over, assess, b, i), RootValue(over, assess, b, j)))
  }

  /** An argmax of the scores from the start, read back as candidates and their values. */
  lemma ArgmaxCandidates(over: OverTest, assess: Evaluator, b: Board, ob: Value, oc: Option<Cell>)
    requires IsBoard(b) && Argmax(Scores(over, assess, b), 0, NegInf, None, ob, oc)
    ensures oc.Some? ==> exists j :: FirstBest(over, assess, b, j) && oc == Some((RowOf(j), ColOf(j)))
    ensures (exists j :: 0 <= j < Cells && Candidate(b, j) && RootValue(over, assess, b, j) != NegInf) ==> oc.Some?
  {
    var sc := Scores(over, assess, b);
    ArgmaxStart(sc, ob, oc);
    if oc.Some? {
      var j :| 0 <= j < |sc| && sc[j].Some? && oc == Some((RowOf(j), ColOf(j))) &&
        (forall i :: 0 <= i < |sc| && sc[i].Some? ==> Le(sc[i].value, sc[j].value)) &&
        (forall i :: 0 <= i < j && sc[i].Some? ==> Lt(sc[i].value, sc[j].value));
      var m := RootValue(over, assess, b, j);
      assert Candidate(b, j) && sc[j].value == m;
      forall i | 0 <= i < Cells && Candidate(b, i)
        ensures Le(RootValue(over, assess, b, i), m)
      {
        assert sc[i] == Some(RootValue(over, assess, b, i));
      }
      forall i | 0 <= i < j && Candidate(b, i)
        ensures Lt(RootValue(over, assess, b, i), m)
      {
        assert sc[i] == Some(RootValue(over, assess, b, i));
      }
      assert FirstBest(over, assess, b, j);
    }
    if exists j :: 0 <= j < Cells && Candidate(b, j) && RootValue(over, assess, b, j) != NegInf {
      var j :| 0 <= j < Cells && Candidate(b, j) && RootValue(over, assess, b, j) != NegInf;
      assert sc[j].Some? && sc[j].value != NegInf;
    }
  }

  /** From the start of calculate_ai_move (no best value, no cell), the root loop chooses the
      first candidate in row-major order whose minimax value is the greatest of all
      candidates', and it chooses some cell whenever a candidate's value is above minus
      infinity. */
  lemma RootChoice(over: OverTest, assess: Evaluator, b: Board, a: Cell)
    requires IsBoard(b)
    ensures var o := RootLoop(over, assess, b, a, 0, NegInf, None);
      o.cell.Some? ==> exists j :: FirstBest(over, assess, b, j) && o.cell == Some((RowOf(j), ColOf(j)))
    ensures (exists j :: 0 <= j < Cells && Candidate(b, j) && RootValue(over, assess, b, j) != NegInf) ==>
      RootLoop(over, assess, b, a, 0, NegInf, None).cell.Some?
  {
    var o := RootLoop(over, assess, b, a, 0, NegInf, None);
    RootLoopArgmax(over, assess, b, a, 0, NegInf, None);
    ArgmaxCandidates(over, assess, b, o.best, o.cell);
  }
}
