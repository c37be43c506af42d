/** The static evaluator of Gomoku/gomoku.cpp: the eight directional scanners
    assess_stone_top … assess_stone_bottom_right and their sum over the board,
    assess_board_value.  The source computes in doubles; every term is a whole number of
    tenths, so the model computes in tenths exactly. */
module GomokuEval {
  import opened GomokuBoard

  /** The eight scanning directions, in the order assess_board_value adds them. */
  datatype Direction = Up | Down | Left | Right | UpLeft | UpRight | DownLeft | DownRight

  /** The cell i steps away from (r, c) in direction d. */
  function At(r: int, c: int, d: Direction, i: int): Cell
  {
    match d
    case Up => (r - i, c)
    case Down => (r + i, c)
    case Left => (r, c - i)
    case Right => (r, c + i)
    case UpLeft => (r - i, c - i)
    case UpRight => (r - i, c + i)
    case DownLeft => (r + i, c - i)
    case DownRight => (r + i, c + i)
  }

  predicate OnBoardAt(r: int, c: int, d: Direction, i: int)
  {
    InBounds(At(r, c, d, i).0, At(r, c, d, i).1)
  }

  /** The stone i steps away, which must be on the board. */
  function StoneAt(b: Board, r: int, c: int, d: Direction, i: int): int
    requires IsBoard(b) && OnBoardAt(r, c, d, i)
  {
    b[At(r, c, d, i).0][At(r, c, d, i).1]
  }

  /** Step i is a point the owner could still extend to: on the board and not an opponent's. */
  predicate Open(b: Board, r: int, c: int, d: Direction, i: int)
    requires IsBoard(b) && InBounds(r, c)
  {
    OnBoardAt(r, c, d, i) && StoneAt(b, r, c, d, i) != -b[r][c]
  }

  /** Step i holds the owner's stone. */
  predicate Same(b: Board, r: int, c: int, d: Direction, i: int)
    requires IsBoard(b) && InBounds(r, c)
  {
    OnBoardAt(r, c, d, i) && StoneAt(b, r, c, d, i) == b[r][c]
  }

  /** A ray from a board cell leaves the board within 15 steps. */
  lemma RayLeaves(r: int, c: int, d: Direction, i: int)
    requires InBounds(r, c) && i >= 1 && OnBoardAt(r, c, d, i)
    ensures i < 15
  {
  }

  // ---------------------------------------------------------------------------------------
  // The first loop of each scanner: the extendable points
  // ---------------------------------------------------------------------------------------

  /** The count of the first loop when it reaches step i: it stops at the first step off the
      board or holding an opponent's stone, and after four steps. */
  function Extendable(b: Board, r: int, c: int, d: Direction, i: nat): (n: int)
    requires IsBoard(b) && InBounds(r, c) && 1 <= i <= 5
    decreases 5 - i
  {
    if i < 5 && Open(b, r, c, d, i) then Extendable(b, r, c, d, i + 1) else i - 1
  }

  /** The loop counts four exactly when the first four steps are all open points. */
  lemma {:induction false} ExtendableMeaning(b: Board, r: int, c: int, d: Direction, i: nat)
    requires IsBoard(b) && InBounds(r, c) && 1 <= i <= 5
    ensures i - 1 <= Extendable(b, r, c, d, i) <= 4
    ensures Extendable(b, r, c, d, i) == 4 <==> forall j :: i <= j <= 4 ==> Open(b, r, c, d, j)
    decreases 5 - i
  {
    if i < 5 && Open(b, r, c, d, i) {
      ExtendableMeaning(b, r, c, d, i + 1);
    }
  }

  // ---------------------------------------------------------------------------------------
  // The second loop: the run of the owner's stones
  // ---------------------------------------------------------------------------------------

  /** The run length counted from step i, stopping at the first step off the board or not
      holding the owner's stone. */
  function Run(b: Board, r: int, c: int, d: Direction, i: nat): (k: int)
    requires IsBoard(b) && InBounds(r, c) && 1 <= i <= 15
    ensures k >= i - 1
    decreases 15 - i
  {
    if Same(b, r, c, d, i) then
      RayLeaves(r, c, d, i);
      Run(b, r, c, d, i + 1)
    else i - 1
  }

  /** The run covers steps i..k, all holding the owner's stone, and step k + 1 does not. */
  lemma {:induction false} RunMeaning(b: Board, r: int, c: int, d: Direction, i: nat)
    requires IsBoard(b) && InBounds(r, c) && 1 <= i <= 15
    ensures var k := Run(b, r, c, d, i);
      i - 1 <= k < 15 && !Same(b, r, c, d, k + 1) && forall j :: i <= j <= k ==> Same(b, r, c, d, j)
    decreases 15 - i
  {
    if Same(b, r, c, d, i) {
      RayLeaves(r, c, d, i);
      RunMeaning(b, r, c, d, i + 1);
    } else if i == 15 {
      assert !OnBoardAt(r, c, d, i) by {
        if OnBoardAt(r, c, d, i) {
          RayLeaves(r, c, d, i);
        }
      }
    }
  }

  function Pow10(n: nat): (p: nat)
    ensures p >= 1
  {
    if n == 0 then 1 else 10 * Pow10(n - 1)
  }

  /** One scanner's value, in whole units: nothing when fewer than four open points follow
      the stone, otherwise ten times ten for every stone of the owner's run. */
  function DirValue(b: Board, r: int, c: int, d: Direction): (v: nat)
    requires IsBoard(b) && InBounds(r, c)
  {
    if Extendable(b, r, c, d, 1) < 4 then 0 else Pow10(Run(b, r, c, d, 1) + 1)
  }

  /** A scanner is worth nothing exactly when one of the first four steps is off the board or
      holds an opponent's stone; otherwise it is worth 10^n when the owner's stones follow
      without a gap up to step n, exclusive. */
  lemma DirValueMeaning(b: Board, r: int, c: int, d: Direction)
    requires IsBoard(b) && InBounds(r, c)
    ensures DirValue(b, r, c, d) == 0 <==> exists j :: 1 <= j <= 4 && !Open(b, r, c, d, j)
    ensures DirValue(b, r, c, d) != 0 ==>
      exists n :: 1 <= n <= 15 && DirValue(b, r, c, d) == Pow10(n) &&
                  (forall j :: 1 <= j < n ==> Same(b, r, c, d, j)) && !Same(b, r, c, d, n)
  {
    ExtendableMeaning(b, r, c, d, 1);
    RunMeaning(b, r, c, d, 1);
  }

  // ---------------------------------------------------------------------------------------
  // The run loop as written: it has no bounds test
  // ---------------------------------------------------------------------------------------

  /** The number of leading entries of xs equal to v. */
  function Lead(xs: seq<int>, v: int): (n: nat)
    ensures n <= |xs|
    ensures forall j :: 0 <= j < n ==> xs[j] == v
    ensures n < |xs| ==> xs[n] != v
  {
    if |xs| == 0 || xs[0] != v then 0 else 1 + Lead(xs[1..], v)
  }

  /** The run loop as the source writes it: past the edge of the board it goes on reading
      whatever memory lies along the ray, given here as `beyond`, up to the first entry that
      is not the owner's stone. */
  function RunAsWritten(b: Board, r: int, c: int, d: Direction, i: nat, beyond: seq<int>): int
    requires IsBoard(b) && InBounds(r, c) && 1 <= i <= 15
    decreases 15 - i
  {
    if !OnBoardAt(r, c, d, i) then i - 1 + Lead(beyond, b[r][c])
    else if StoneAt(b, r, c, d, i) == b[r][c] then
      RayLeaves(r, c, d, i);
      RunAsWritten(b, r, c, d, i + 1, beyond)
    else i - 1
  }

  /** The unchecked run exceeds the run on the board by the leading owner's stones read past
      the edge, and only when the run reaches the edge. */
  lemma {:induction false} RunAsWrittenExceeds(b: Board, r: int, c: int, d: Direction, i: nat, beyond: seq<int>)
    requires IsBoard(b) && InBounds(r, c) && 1 <= i <= 15
    ensures var k := Run(b, r, c, d, i);
      RunAsWritten(b, r, c, d, i, beyond) ==
        k + (if OnBoardAt(r, c, d, k + 1) then 0 else Lead(beyond, b[r][c]))
    decreases 15 - i
  {
    if OnBoardAt(r, c, d, i) {
      RayLeaves(r, c, d, i);
      if StoneAt(b, r, c, d, i) == b[r][c] {
        RunAsWrittenExceeds(b, r, c, d, i + 1, beyond);
      }
    }
  }

  /** A scanner as written, reading `beyond` past the edge. */
  function DirValueAsWritten(b: Board, r: int, c: int, d: Direction, beyond: seq<int>): nat
    requires IsBoard(b) && InBounds(r, c)
  {
    if Extendable(b, r, c, d, 1) < 4 then 0 else
      var k := RunAsWritten(b, r, c, d, 1, beyond);
      if k < 0 then 0 else Pow10(k + 1)
  }

  /** The scanner as written agrees with the bounded one unless its owner's run reaches the
      edge of the board and the memory read next holds the owner's value too. */
  lemma DirValueAsWrittenAgrees(b: Board, r: int, c: int, d: Direction, beyond: seq<int>)
    requires IsBoard(b) && InBounds(r, c)
    requires OnBoardAt(r, c, d, Run(b, r, c, d, 1) + 1) || |beyond| == 0 || beyond[0] != b[r][c]
    ensures DirValueAsWritten(b, r, c, d, beyond) == DirValue(b, r, c, d)
  {
    RunMeaning(b, r, c, d, 1);
    RunAsWrittenExceeds(b, r, c, d, 1, beyond);
  }

  /** The row of stones of one colour at row 7, columns 10 to 14, on an otherwise empty board. */
  function EdgeFive(v: int): (b: Board)
    ensures IsBoard(b)
  {
    Place(Place(Place(Place(Place(EmptyBoard(), 7, 10, v), 7, 11, v), 7, 12, v), 7, 13, v), 7, 14, v)
  }

  /** The computer's five at the right edge: scanning right from (7, 10) the source also counts
      the next value in memory (row 8, column 0, in row-major layout) when it holds the same
      stone, and reports 10^6 where the board holds a run worth 10^5. */
  lemma EdgeFiveOverCounts()
    ensures DirValue(EdgeFive(-1), 7, 10, Right) == Pow10(5)
    ensures DirValueAsWritten(EdgeFive(-1), 7, 10, Right, [-1, 0]) == Pow10(6)
  {
    var b := EdgeFive(-1);
    assert Open(b, 7, 10, Right, 1) && Open(b, 7, 10, Right, 2);
    assert Open(b, 7, 10, Right, 3) && Open(b, 7, 10, Right, 4);
    assert Extendable(b, 7, 10, Right, 1) == 4;
    assert !Same(b, 7, 10, Right, 5);
    assert Run(b, 7, 10, Right, 1) == 4;
    assert Lead([-1, 0], -1) == 1;
    RunAsWrittenExceeds(b, 7, 10, Right, 1, [-1, 0]);
  }

  // ---------------------------------------------------------------------------------------
  // assess_board_value (Gomoku/gomoku.cpp:1320-1352)
  // ---------------------------------------------------------------------------------------

  function Abs(x: int): nat
  {
    if x < 0 then -x else x
  }

  /** A stone's value in tenths: ten times its eight scanner values plus the centre bonus. */
  function StoneValue(b: Board, r: int, c: int): (v: int)
    requires IsBoard(b) && InBounds(r, c)
  {
    10 * (DirValue(b, r, c, Up) + DirValue(b, r, c, Down) + DirValue(b, r, c, Left) +
          DirValue(b, r, c, Right) + DirValue(b, r, c, UpLeft) + DirValue(b, r, c, UpRight) +
          DirValue(b, r, c, DownLeft) + DirValue(b, r, c, DownRight))
    + (15 - Abs(r - 7) - Abs(c - 7))
  }

  /** Every stone is worth at least the centre bonus of a corner, one tenth. */
  lemma StoneValuePositive(b: Board, r: int, c: int)
    requires IsBoard(b) && InBounds(r, c)
    ensures StoneValue(b, r, c) >= 1
  {
  }

  /** What one cell adds to the board value: nothing when empty, its stone value for the
      computer, and minus five times it for the player. */
  function CellValue(b: Board, r: int, c: int): int
    requires IsBoard(b) && InBounds(r, c)
  {
    if b[r][c] != 0 then (if b[r][c] == 1 then -StoneValue(b, r, c) * 5 else StoneValue(b, r, c))
    else 0
  }

  /** The cells from flat index k on, in row-major order, summed. */
  function ValueFrom(b: Board, k: nat): int
    requires IsBoard(b) && k <= N * N
    decreases N * N - k
  {
    if k == N * N then 0 else CellValue(b, k / N, k % N) + ValueFrom(b, k + 1)
  }

  /** The board value in tenths. */
  function AssessBoardValue(b: Board): int
    requires IsBoard(b)
  {
    ValueFrom(b, 0)
  }

  /** The board value split by colour: the computer's stones counted once, the player's five
      times negatively. */
  function AiFrom(b: Board, k: nat): int
    requires IsBoard(b) && k <= N * N
    decreases N * N - k
  {
    if k == N * N then 0
    else (if b[k / N][k % N] == -1 then StoneValue(b, k / N, k % N) else 0) + AiFrom(b, k + 1)
  }

  function PlayerFrom(b: Board, k: nat): int
    requires IsBoard(b) && k <= N * N
    decreases N * N - k
  {
    if k == N * N then 0
    else (if b[k / N][k % N] == 1 then StoneValue(b, k / N, k % N) else 0) + PlayerFrom(b, k + 1)
  }

  /** The board holds only the values 0, 1 and -1. */
  ghost predicate Stones(b: Board)
    requires IsBoard(b)
  {
    forall r, c :: InBounds(r, c) ==> b[r][c] in {-1, 0, 1}
  }

  /** One cell's share of the evaluator, split by colour. */
  lemma CellSplits(b: Board, r: int, c: int)
    requires IsBoard(b) && InBounds(r, c) && b[r][c] in {-1, 0, 1}
    ensures CellValue(b, r, c) ==
      (if b[r][c] == -1 then StoneValue(b, r, c) else 0) - 5 * (if b[r][c] == 1 then StoneValue(b, r, c) else 0)
  {
  }

  /** The evaluator is the computer's stone values less five times the player's. */
  lemma {:induction false} ValueSplits(b: Board, k: nat)
    requires IsBoard(b) && Stones(b) && k <= N * N
    ensures ValueFrom(b, k) == AiFrom(b, k) - 5 * PlayerFrom(b, k)
    ensures AiFrom(b, k) >= 0 && PlayerFrom(b, k) >= 0
    decreases N * N - k
  {
    if k < N * N {
      var r, c := k / N, k % N;
      assert InBounds(r, c);
      CellSplits(b, r, c);
      StoneValuePositive(b, r, c);
      ValueSplits(b, k + 1);
    }
  }

  /** A board without any stone is worth nothing. */
  lemma {:induction false} EmptyValue(b: Board, k: nat)
    requires IsBoard(b) && k <= N * N
    requires forall r, c :: InBounds(r, c) ==> b[r][c] == 0
    ensures ValueFrom(b, k) == 0
    decreases N * N - k
  {
    if k < N * N {
      EmptyValue(b, k + 1);
    }
  }
}
