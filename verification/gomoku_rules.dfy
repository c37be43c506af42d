/** The referee of Gomoku/gomoku.cpp: the terminal test check_battle_state and the result
    check_winner.  Both look only at the four lines through the last move (the anchor),
    within offsets -4..4 of it, and count stones equal to the anchor's. */
module GomokuRules {
  import opened Options
  import opened GomokuBoard

  /** The four lines through a cell, in the order the source tests them. */
  datatype Axis = Vertical | Horizontal | MainDiagonal | AntiDiagonal

  /** The cell at offset k from the anchor along an axis; the anti-diagonal runs from bottom
      left to top right, so its row falls as the offset grows. */
  function Point(a: Cell, axis: Axis, k: int): Cell
  {
    match axis
    case Vertical => (a.0 + k, a.1)
    case Horizontal => (a.0, a.1 + k)
    case MainDiagonal => (a.0 + k, a.1 + k)
    case AntiDiagonal => (a.0 - k, a.1 + k)
  }

  predicate OnBoard(a: Cell, axis: Axis, k: int)
  {
    InBounds(Point(a, axis, k).0, Point(a, axis, k).1)
  }

  /** The offsets of a line that fall on the board form an interval. */
  lemma OnBoardConvex(a: Cell, axis: Axis, i: int, j: int, k: int)
    requires OnBoard(a, axis, i) && OnBoard(a, axis, j) && i <= k <= j
    ensures OnBoard(a, axis, k)
  {
  }

  /** The stone on the anchor: the player who moved last. */
  function Owner(b: Board, a: Cell): int
    requires IsBoard(b) && InBounds(a.0, a.1)
  {
    b[a.0][a.1]
  }

  /** The cell at offset k is on the board and holds the last mover's stone. */
  predicate Good(b: Board, a: Cell, axis: Axis, k: int)
    requires IsBoard(b) && InBounds(a.0, a.1)
  {
    OnBoard(a, axis, k) && b[Point(a, axis, k).0][Point(a, axis, k).1] == Owner(b, a)
  }

  /** Offsets s..s+4 all hold the last mover's stone. */
  predicate Five(b: Board, a: Cell, axis: Axis, s: int)
    requires IsBoard(b) && InBounds(a.0, a.1)
  {
    forall k :: s <= k < s + 5 ==> Good(b, a, axis, k)
  }

  /** Five of the last mover's stones in a row along the axis, inside offsets -4..4. */
  predicate FiveInRow(b: Board, a: Cell, axis: Axis)
    requires IsBoard(b) && InBounds(a.0, a.1)
  {
    exists s :: -4 <= s <= 0 && Five(b, a, axis, s)
  }

  /** One of the four loops of check_battle_state and check_winner, from offset o with count
      c: an off-board offset is skipped, a matching stone increments the count and anything
      else resets it; the loop stops with the current offset once the count reaches five. */
  function Scan(b: Board, a: Cell, axis: Axis, o: int, c: int): (e: Option<int>)
    requires IsBoard(b) && InBounds(a.0, a.1) && o <= 5
    decreases 5 - o
  {
    if o == 5 then None
    else
      var c' := if !OnBoard(a, axis, o) then c else if Good(b, a, axis, o) then c + 1 else 0;
      if c' == 5 then Some(o) else Scan(b, a, axis, o + 1, c')
  }

  /** Once the line has left the board past the anchor, the loop ends without a five. */
  lemma {:induction false} ScanDead(b: Board, a: Cell, axis: Axis, o: int, c: int)
    requires IsBoard(b) && InBounds(a.0, a.1) && 0 < o <= 5 && c <= 4
    requires o < 5 ==> !OnBoard(a, axis, o)
    ensures Scan(b, a, axis, o, c) == None
    decreases 5 - o
  {
    if o < 5 {
      assert OnBoard(a, axis, 0);
      if o + 1 < 5 && OnBoard(a, axis, o + 1) {
        OnBoardConvex(a, axis, 0, o + 1, o);
      }
      ScanDead(b, a, axis, o + 1, c);
    }
  }

  /** The loop from offset o with a run of c stones behind it stops only at the end of a five
      that starts no earlier than the run. */
  lemma {:induction false} ScanSound(b: Board, a: Cell, axis: Axis, o: int, c: int)
    requires IsBoard(b) && InBounds(a.0, a.1)
    requires -4 <= o <= 5 && 0 <= c <= 4 && o - c >= -4
    requires forall k :: o - c <= k < o ==> Good(b, a, axis, k)
    ensures var e := Scan(b, a, axis, o, c);
      e.Some? ==> o <= e.value <= 4 && o - c <= e.value - 4 && Five(b, a, axis, e.value - 4)
    decreases 5 - o
  {
    if o < 5 {
      if !OnBoard(a, axis, o) && c > 0 {
        assert Good(b, a, axis, o - 1);
        assert OnBoard(a, axis, 0);
        if o <= 0 {
          OnBoardConvex(a, axis, o - 1, 0, o);
        }
        ScanDead(b, a, axis, o, c);
      } else {
        var c' := if Good(b, a, axis, o) then c + 1 else 0;
        if c' == 5 {
          assert Scan(b, a, axis, o, c) == Some(o);
          assert forall k :: o - 4 <= k < o + 1 ==> Good(b, a, axis, k);
        } else {
          assert Scan(b, a, axis, o, c) == Scan(b, a, axis, o + 1, c');
          ScanSound(b, a, axis, o + 1, c');
        }
      }
    }
  }

  /** The loop from offset o with a run of c stones behind it finds every five that starts
      no earlier than the run, stopping no later than the end of the first. */
  lemma {:induction false} ScanComplete(b: Board, a: Cell, axis: Axis, o: int, c: int)
    requires IsBoard(b) && InBounds(a.0, a.1)
    requires -4 <= o <= 5 && 0 <= c <= 4 && o - c >= -4
    requires forall k :: o - c <= k < o ==> Good(b, a, axis, k)
    ensures forall s :: o - c <= s <= 0 && Five(b, a, axis, s) ==>
      Scan(b, a, axis, o, c).Some? && Scan(b, a, axis, o, c).value - 4 <= s
    decreases 5 - o
  {
    if o < 5 {
      if !OnBoard(a, axis, o) && c > 0 {
        assert Good(b, a, axis, o - 1);
        assert OnBoard(a, axis, 0);
        if o <= 0 {
          OnBoardConvex(a, axis, o - 1, 0, o);
        }
        assert !Good(b, a, axis, o);
        forall s | o - c <= s <= 0
          ensures !Five(b, a, axis, s)
        {
          assert s <= o < s + 5;
        }
      } else if Good(b, a, axis, o) {
        if c + 1 < 5 {
          ScanComplete(b, a, axis, o + 1, c + 1);
        }
      } else {
        ScanComplete(b, a, axis, o + 1, 0);
        forall s | o - c <= s <= o
          ensures !Five(b, a, axis, s)
        {
          assert s <= o < s + 5;
        }
      }
    }
  }

  /** The loop from offset o with a run of c stones behind it stops exactly at the end of the
      first five that starts no earlier than the run. */
  lemma ScanMeaning(b: Board, a: Cell, axis: Axis, o: int, c: int)
    requires IsBoard(b) && InBounds(a.0, a.1)
    requires -4 <= o <= 5 && 0 <= c <= 4 && o - c >= -4
    requires forall k :: o - c <= k < o ==> Good(b, a, axis, k)
    ensures var e := Scan(b, a, axis, o, c);
      e.Some? ==> o <= e.value <= 4 && o - c <= e.value - 4 && Five(b, a, axis, e.value - 4)
    ensures forall s :: o - c <= s <= 0 && Five(b, a, axis, s) ==>
      Scan(b, a, axis, o, c).Some? && Scan(b, a, axis, o, c).value - 4 <= s
  {
    ScanSound(b, a, axis, o, c);
    ScanComplete(b, a, axis, o, c);
  }

  /** The loop of one axis as the source starts it, with the offset at which it stops. */
  function AxisEnd(b: Board, a: Cell, axis: Axis): (e: Option<int>)
    requires IsBoard(b) && InBounds(a.0, a.1)
  {
    Scan(b, a, axis, -4, 0)
  }

  /** An axis's loop stops exactly when the axis holds a five, at the end of the first one. */
  lemma AxisEndMeaning(b: Board, a: Cell, axis: Axis)
    requires IsBoard(b) && InBounds(a.0, a.1)
    ensures AxisEnd(b, a, axis).Some? <==> FiveInRow(b, a, axis)
    ensures AxisEnd(b, a, axis).Some? ==>
      var s := AxisEnd(b, a, axis).value - 4;
      -4 <= s <= 0 && Five(b, a, axis, s) && forall t :: -4 <= t < s ==> !Five(b, a, axis, t)
  {
    ScanMeaning(b, a, axis, -4, 0);
  }

  // ---------------------------------------------------------------------------------------
  // check_battle_state (Gomoku/gomoku.cpp:1242-1312)
  // ---------------------------------------------------------------------------------------

  /** The four axis loops in order, then the full-board test. */
  function CheckBattleState(b: Board, a: Cell): bool
    requires IsBoard(b) && InBounds(a.0, a.1)
  {
    AxisEnd(b, a, Vertical).Some? || AxisEnd(b, a, Horizontal).Some? ||
    AxisEnd(b, a, MainDiagonal).Some? || AxisEnd(b, a, AntiDiagonal).Some? || Full(b)
  }

  /** The battle is over exactly when the last mover has five in a row through the last move
      on some axis, or the board is full. */
  lemma CheckBattleStateMeaning(b: Board, a: Cell)
    requires IsBoard(b) && InBounds(a.0, a.1)
    ensures CheckBattleState(b, a) <==> (exists axis :: FiveInRow(b, a, axis)) || Full(b)
  {
    AxisEndMeaning(b, a, Vertical);
    AxisEndMeaning(b, a, Horizontal);
    AxisEndMeaning(b, a, MainDiagonal);
    AxisEndMeaning(b, a, AntiDiagonal);
    if exists axis :: FiveInRow(b, a, axis) {
      var axis :| FiveInRow(b, a, axis);
      assert axis == Vertical || axis == Horizontal || axis == MainDiagonal || axis == AntiDiagonal;
    }
  }

  // ---------------------------------------------------------------------------------------
  // check_winner (Gomoku/gomoku.cpp:1557-1634)
  // ---------------------------------------------------------------------------------------

  /** The result of check_winner: the winner (1 player, -1 computer, 0 tie) and, for a win,
      the axis and the end cell from which the winning line is highlighted. */
  datatype Verdict = Verdict(winner: int, line: Option<(Axis, Cell)>)

  /** The first of the given axes whose loop stops, with the cell where it stops. */
  function FirstWin(b: Board, a: Cell, axes: seq<Axis>): (w: Option<(Axis, Cell)>)
    requires IsBoard(b) && InBounds(a.0, a.1)
    ensures w.Some? ==> (AxisEnd(b, a, w.value.0).Some? &&
      w.value.1 == Point(a, w.value.0, AxisEnd(b, a, w.value.0).value))
    ensures w.Some? ==> exists i :: 0 <= i < |axes| && axes[i] == w.value.0 &&
                                 (forall j :: 0 <= j < i ==> AxisEnd(b, a, axes[j]).None?)
    ensures w.None? <==> forall i :: 0 <= i < |axes| ==> AxisEnd(b, a, axes[i]).None?
  {
    if |axes| == 0 then None
    else match AxisEnd(b, a, axes[0])
      case Some(e) => Some((axes[0], Point(a, axes[0], e)))
      case None => FirstWin(b, a, axes[1..])
  }

  function CheckWinner(b: Board, a: Cell): (v: Verdict)
    requires IsBoard(b) && InBounds(a.0, a.1)
  {
    match FirstWin(b, a, [Vertical, Horizontal, MainDiagonal, AntiDiagonal])
    case Some(w) => Verdict(Owner(b, a), Some(w))
    case None => Verdict(0, None)
  }

  /** check_winner reports a line exactly when the last mover has five in a row through the
      last move; the winner is then the last mover and otherwise 0, and the reported end
      cell holds the last mover's stone at the end of a five on the reported axis. */
  lemma CheckWinnerMeaning(b: Board, a: Cell)
    requires IsBoard(b) && InBounds(a.0, a.1)
    ensures var v := CheckWinner(b, a);
      (v.line.Some? <==> exists axis :: FiveInRow(b, a, axis)) &&
      v.winner == (if v.line.Some? then Owner(b, a) else 0)
    ensures var v := CheckWinner(b, a);
      v.line.Some? ==>
        (exists s :: -4 <= s <= 0 && Five(b, a, v.line.value.0, s) && v.line.value.1 == Point(a, v.line.value.0, s + 4))
  {
    var axes := [Vertical, Horizontal, MainDiagonal, AntiDiagonal];
    AxisEndMeaning(b, a, Vertical);
    AxisEndMeaning(b, a, Horizontal);
    AxisEndMeaning(b, a, MainDiagonal);
    AxisEndMeaning(b, a, AntiDiagonal);
    if exists axis :: FiveInRow(b, a, axis) {
      var axis :| FiveInRow(b, a, axis);
      assert axis == axes[0] || axis == axes[1] || axis == axes[2] || axis == axes[3];
    }
    var v := CheckWinner(b, a);
    if v.line.Some? {
      var (axis, e) := v.line.value;
      var s := AxisEnd(b, a, axis).value - 4;
      assert e == Point(a, axis, s + 4);
    }
  }

  /** For a stone on the anchor, the battle is over exactly when check_winner names the last
      mover or the board is full; so a full board without a five is the tie. */
  lemma BattleOverIffDecided(b: Board, a: Cell)
    requires IsBoard(b) && InBounds(a.0, a.1) && Owner(b, a) != 0
    ensures CheckBattleState(b, a) <==> CheckWinner(b, a).winner == Owner(b, a) || Full(b)
    ensures CheckWinner(b, a).winner == 0 || CheckWinner(b, a).winner == Owner(b, a)
  {
    CheckBattleStateMeaning(b, a);
    CheckWinnerMeaning(b, a);
  }
}
