/** The 4×4 grid of 2048.c: the four moves built from the shared line loop, the empty-cell
    count, the game-over test, tile spawning (its random draws taken as parameters) and the
    start of a new game. */
module Grid2048 {
  import opened SlideLine

  const Size: nat := 4

  type Grid = seq<seq<int>>

  predicate IsGrid(g: Grid)
  {
    |g| == Size && forall r :: 0 <= r < |g| ==> |g[r]| == Size
  }

  datatype Direction = Up | Down | Left | Right

  /** A move's outcome: the new grid, the points it adds to the score, and the source's
      change flag. */
  datatype Moved = Moved(grid: Grid, gain: int, changed: bool)

  /** Lines of fixed length. */
  predicate Rows(ls: seq<seq<int>>)
  {
    forall i :: 0 <= i < |ls| ==> |ls[i]| == Size
  }

  function Transpose(g: Grid): (t: Grid)
    requires IsGrid(g)
    ensures IsGrid(t)
    ensures forall r, c :: 0 <= r < Size && 0 <= c < Size ==> t[r][c] == g[c][r]
  {
    seq(Size, c requires 0 <= c < Size => seq(Size, r requires 0 <= r < Size => g[r][c]))
  }

  lemma TransposeTwice(g: Grid)
    requires IsGrid(g)
    ensures Transpose(Transpose(g)) == g
  {
    var t := Transpose(Transpose(g));
    forall r | 0 <= r < Size
      ensures t[r] == g[r]
    {
    }
  }

  function Reversed(ls: seq<seq<int>>): (rs: seq<seq<int>>)
    ensures |rs| == |ls| && forall i :: 0 <= i < |ls| ==> rs[i] == Reverse(ls[i])
  {
    seq(|ls|, i requires 0 <= i < |ls| => Reverse(ls[i]))
  }

  // ---------------------------------------------------------------------------------------
  // The four moves (2048.c:403-635)
  // ---------------------------------------------------------------------------------------

  /** One line slid by the loop of the leftward and upward moves (`toStart`) or by the loop
      of the rightward and downward moves. */
  function SlideOne(xs: seq<int>, toStart: bool): (p: Pass)
    requires |xs| >= 1
    ensures |p.cells| == |xs|
  {
    if toStart then SlideTowardStart(xs) else SlideTowardEnd(xs)
  }

  /** The outer loop over the lines: each line slid in turn, its points added to the score,
      and the change flag raised if any line raised it. */
  function SlideRows(ls: seq<seq<int>>, toStart: bool): (m: Moved)
    requires Rows(ls)
    ensures |m.grid| == |ls| && Rows(m.grid)
  {
    if ls == [] then Moved([], 0, false)
    else
      var p := SlideOne(ls[0], toStart);
      var rest := SlideRows(ls[1..], toStart);
      Moved([p.cells] + rest.grid, p.gain + rest.gain, p.changed || rest.changed)
  }

  /** The move for one arrow key, without the tile spawn that follows it.  The upward and
      downward moves run the same loops down the columns. */
  function Move(g: Grid, d: Direction): (m: Moved)
    requires IsGrid(g)
    ensures IsGrid(m.grid)
  {
    match d
    case Left => SlideRows(g, true)
    case Right => SlideRows(g, false)
    case Up =>
      var m := SlideRows(Transpose(g), true);
      Moved(Transpose(m.grid), m.gain, m.changed)
    case Down =>
      var m := SlideRows(Transpose(g), false);
      Moved(Transpose(m.grid), m.gain, m.changed)
  }

  /** The lines of a grid as seen by a move in direction `d`, each read starting at the wall
      its tiles slide toward. */
  function Lines(g: Grid, d: Direction): (ls: seq<seq<int>>)
    requires IsGrid(g)
    ensures |ls| == Size && Rows(ls)
  {
    match d
    case Left => g
    case Right => Reversed(g)
    case Up => Transpose(g)
    case Down => Reversed(Transpose(g))
  }

  /** Points the merge rule awards on a set of lines. */
  function RuleGain(ls: seq<seq<int>>): int
  {
    if ls == [] then 0 else Gain(NonZero(ls[0])) + RuleGain(ls[1..])
  }

  /** Some line is changed by the merge rule. */
  predicate SomeLineMoves(ls: seq<seq<int>>)
  {
    exists i :: 0 <= i < |ls| && SlideSpec(ls[i]) != ls[i]
  }

  /** The loop on one line raises its flag exactly when the line changed. */
  lemma OneChanged(xs: seq<int>, toStart: bool)
    requires |xs| >= 1
    ensures SlideOne(xs, toStart).changed <==> SlideOne(xs, toStart).cells != xs
  {
    if toStart {
      TowardStartMeetsRule(xs);
    } else {
      TowardEndMeetsRule(xs);
    }
  }

  /** The outer loop slides every line by itself. */
  lemma {:induction false} SlideRowsLines(ls: seq<seq<int>>, toStart: bool)
    requires Rows(ls)
    ensures forall i :: 0 <= i < |ls| ==> SlideRows(ls, toStart).grid[i] == SlideOne(ls[i], toStart).cells
    decreases |ls|
  {
    if ls != [] {
      SlideRowsLines(ls[1..], toStart);
      var m := SlideRows(ls, toStart);
      var rest := SlideRows(ls[1..], toStart);
      forall i | 1 <= i < |ls|
        ensures m.grid[i] == SlideOne(ls[i], toStart).cells
      {
        assert m.grid[i] == rest.grid[i - 1] && ls[i] == ls[1..][i - 1];
      }
    }
  }

  /** The outer loop's flag is raised exactly when some line changed. */
  lemma {:induction false} SlideRowsChanged(ls: seq<seq<int>>, toStart: bool)
    requires Rows(ls)
    ensures SlideRows(ls, toStart).changed <==> SlideRows(ls, toStart).grid != ls
    decreases |ls|
  {
    if ls != [] {
      SlideRowsChanged(ls[1..], toStart);
      OneChanged(ls[0], toStart);
      SlideRowsCons(ls, toStart);
      var p := SlideOne(ls[0], toStart);
      FlagMoved(ls, SlideRows(ls, toStart), p.cells, p.changed, SlideRows(ls[1..], toStart));
    }
  }

  /** A move whose first line and remaining lines each carry a faithful flag carries one too. */
  lemma FlagMoved(ls: seq<seq<int>>, m: Moved, cells: seq<int>, changed: bool, rest: Moved)
    requires ls != []
    requires m.grid == [cells] + rest.grid && m.changed == (changed || rest.changed)
    requires changed <==> cells != ls[0]
    requires rest.changed <==> rest.grid != ls[1..]
    ensures m.changed <==> m.grid != ls
  {
    assert ls == [ls[0]] + ls[1..];
    FlagCons(cells, rest.grid, ls[0], ls[1..], changed, rest.changed);
  }

  /** One iteration of the outer loop: the first line slid, then the others. */
  lemma SlideRowsCons(ls: seq<seq<int>>, toStart: bool)
    requires Rows(ls) && ls != []
    ensures SlideRows(ls, toStart).grid == [SlideOne(ls[0], toStart).cells] + SlideRows(ls[1..], toStart).grid
    ensures SlideRows(ls, toStart).changed == (SlideOne(ls[0], toStart).changed || SlideRows(ls[1..], toStart).changed)
  {
  }

  /** Two flags that track two parts track the whole. */
  lemma FlagCons<T>(x: T, xs: seq<T>, y: T, ys: seq<T>, f: bool, fs: bool)
    requires (f <==> x != y) && (fs <==> xs != ys)
    ensures (f || fs) <==> [x] + xs != [y] + ys
  {
    ConsEqual(x, xs, y, ys);
  }

  lemma ConsEqual<T>(a: T, xs: seq<T>, b: T, ys: seq<T>)
    ensures [a] + xs == [b] + ys <==> a == b && xs == ys
  {
    if [a] + xs == [b] + ys {
      assert ([a] + xs)[0] == a;
      assert ([a] + xs)[1..] == xs;
      assert ([b] + ys)[1..] == ys;
    }
  }

  lemma {:induction false} SlideRowsGainToStart(ls: seq<seq<int>>)
    requires Rows(ls)
    ensures SlideRows(ls, true).gain == RuleGain(ls)
    decreases |ls|
  {
    if ls != [] {
      TowardStartMeetsRule(ls[0]);
      SlideRowsGainToStart(ls[1..]);
    }
  }

  lemma {:induction false} SlideRowsGainToEnd(ls: seq<seq<int>>)
    requires Rows(ls)
    ensures SlideRows(ls, false).gain == RuleGain(Reversed(ls))
    decreases |ls|
  {
    if ls != [] {
      TowardEndMeetsRule(ls[0]);
      SlideRowsGainToEnd(ls[1..]);
      assert Reversed(ls)[1..] == Reversed(ls[1..]);
    }
  }

  lemma SlideRowsToStart(ls: seq<seq<int>>)
    requires Rows(ls)
    ensures forall i :: 0 <= i < |ls| ==> SlideRows(ls, true).grid[i] == SlideSpec(ls[i])
    ensures SlideRows(ls, true).gain == RuleGain(ls)
    ensures SlideRows(ls, true).changed <==> SlideRows(ls, true).grid != ls
  {
    SlideRowsLines(ls, true);
    SlideRowsChanged(ls, true);
    SlideRowsGainToStart(ls);
    forall i | 0 <= i < |ls|
      ensures SlideOne(ls[i], true).cells == SlideSpec(ls[i])
    {
      TowardStartMeetsRule(ls[i]);
    }
  }

  lemma SlideRowsToEnd(ls: seq<seq<int>>)
    requires Rows(ls)
    ensures forall i :: 0 <= i < |ls| ==> Reverse(SlideRows(ls, false).grid[i]) == SlideSpec(Reverse(ls[i]))
    ensures SlideRows(ls, false).gain == RuleGain(Reversed(ls))
    ensures SlideRows(ls, false).changed <==> SlideRows(ls, false).grid != ls
  {
    SlideRowsLines(ls, false);
    SlideRowsChanged(ls, false);
    SlideRowsGainToEnd(ls);
    forall i | 0 <= i < |ls|
      ensures Reverse(SlideOne(ls[i], false).cells) == SlideSpec(Reverse(ls[i]))
    {
      TowardEndMeetsRule(ls[i]);
      ReverseReverse(SlideSpec(Reverse(ls[i])));
    }
  }

  /** What a move must do to the lines it sees: apply the merge rule to each, add up the
      rule's points, and raise the change flag exactly when the grid changed. */
  ghost predicate ObeysRule(g: Grid, d: Direction, m: Moved)
    requires IsGrid(g) && IsGrid(m.grid)
  {
    && (forall i :: 0 <= i < Size ==> Lines(m.grid, d)[i] == SlideSpec(Lines(g, d)[i]))
    && m.gain == RuleGain(Lines(g, d))
    && (m.changed <==> m.grid != g)
    && (m.changed <==> SomeLineMoves(Lines(g, d)))
  }

  /** Every move applies the merge rule to each of its lines, adds exactly the rule's points,
      and raises its change flag exactly when the grid changes, which is exactly when some
      line is not already as the rule leaves it. */
  lemma MoveFollowsRule(g: Grid, d: Direction)
    requires IsGrid(g)
    ensures forall i :: 0 <= i < Size ==> Lines(Move(g, d).grid, d)[i] == SlideSpec(Lines(g, d)[i])
    ensures Move(g, d).gain == RuleGain(Lines(g, d))
    ensures Move(g, d).changed <==> Move(g, d).grid != g
    ensures Move(g, d).changed <==> SomeLineMoves(Lines(g, d))
  {
    match d
    case Left => LeftObeys(g);
    case Right => RightObeys(g);
    case Up => UpObeys(g);
    case Down => DownObeys(g);
  }

  lemma LeftObeys(g: Grid)
    requires IsGrid(g)
    ensures ObeysRule(g, Left, Move(g, Left))
  {
    var m := SlideRows(g, true);
    SlideRowsToStart(g);
    NoLineMovesFixed(g, m.grid);
  }

  lemma RightObeys(g: Grid)
    requires IsGrid(g)
    ensures ObeysRule(g, Right, Move(g, Right))
  {
    var m := SlideRows(g, false);
    assert Move(g, Right) == m;
    SlideRowsToEnd(g);
    assert Lines(m.grid, Right) == Lines(g, Right) <==> m.grid == g by {
      ReversedInjective(g, m.grid);
    }
    ObeysWhen(g, Right, m);
  }

  lemma UpObeys(g: Grid)
    requires IsGrid(g)
    ensures ObeysRule(g, Up, Move(g, Up))
  {
    var tg := Transpose(g);
    var t := SlideRows(tg, true);
    var out := Transpose(t.grid);
    assert Move(g, Up) == Moved(out, t.gain, t.changed);
    SlideRowsToStart(tg);
    assert Lines(out, Up) == t.grid && Lines(g, Up) == tg by {
      TransposeTwice(t.grid);
    }
    assert out == g <==> t.grid == tg by {
      TransposeTwice(t.grid);
      TransposeTwice(g);
    }
    ObeysWhen(g, Up, Moved(out, t.gain, t.changed));
  }

  lemma DownObeys(g: Grid)
    requires IsGrid(g)
    ensures ObeysRule(g, Down, Move(g, Down))
  {
    var tg := Transpose(g);
    var t := SlideRows(tg, false);
    var out := Transpose(t.grid);
    assert Move(g, Down) == Moved(out, t.gain, t.changed);
    SlideRowsToEnd(tg);
    assert Lines(out, Down) == Reversed(t.grid) && Lines(g, Down) == Reversed(tg) by {
      TransposeTwice(t.grid);
    }
    assert out == g <==> t.grid == tg by {
      TransposeTwice(t.grid);
      TransposeTwice(g);
    }
    ReversedInjective(tg, t.grid);
    ObeysWhen(g, Down, Moved(out, t.gain, t.changed));
  }

  /** The rule is obeyed once each line is slid by it, the points are the rule's, the flag
      tracks the grid, and the lines the move sees determine the grid. */
  lemma ObeysWhen(g: Grid, d: Direction, m: Moved)
    requires IsGrid(g) && IsGrid(m.grid)
    requires forall i :: 0 <= i < Size ==> Lines(m.grid, d)[i] == SlideSpec(Lines(g, d)[i])
    requires m.gain == RuleGain(Lines(g, d))
    requires m.changed <==> m.grid != g
    requires Lines(m.grid, d) == Lines(g, d) <==> m.grid == g
    ensures ObeysRule(g, d, m)
  {
    NoLineMovesFixed(Lines(g, d), Lines(m.grid, d));
  }

  /** When `out` holds the rule applied to every line of `ls`, a line moves exactly when
      `out` differs from `ls`. */
  lemma NoLineMovesFixed(ls: seq<seq<int>>, out: seq<seq<int>>)
    requires |out| == |ls| && forall i :: 0 <= i < |ls| ==> out[i] == SlideSpec(ls[i])
    ensures SomeLineMoves(ls) <==> out != ls
  {
    if out != ls {
      assert exists i :: 0 <= i < |ls| && out[i] != ls[i];
    }
  }

  lemma ReversedInjective(a: seq<seq<int>>, b: seq<seq<int>>)
    requires |a| == |b|
    ensures Reversed(a) == Reversed(b) <==> a == b
  {
    if Reversed(a) == Reversed(b) {
      forall i | 0 <= i < |a|
        ensures a[i] == b[i]
      {
        ReverseReverse(a[i]);
        ReverseReverse(b[i]);
      }
    }
  }

  // ---------------------------------------------------------------------------------------
  // Cell contents: the tile sum and the empty cells
  // ---------------------------------------------------------------------------------------

  /** The cells of a grid in row-major order. */
  function Flatten(ls: seq<seq<int>>): (f: seq<int>)
    ensures Rows(ls) ==> |f| == Size * |ls|
  {
    if ls == [] then [] else ls[0] + Flatten(ls[1..])
  }

  /** Cell `p` of the row-major order. */
  lemma {:induction false} FlattenAt(ls: seq<seq<int>>, p: nat)
    requires Rows(ls) && p < Size * |ls|
    ensures Flatten(ls)[p] == ls[p / Size][p % Size]
    decreases |ls|
  {
    if p >= Size {
      FlattenAt(ls[1..], p - Size);
      assert (p - Size) / Size == p / Size - 1;
      assert (p - Size) % Size == p % Size;
    }
  }

  function Total(g: Grid): int
  {
    Sum(Flatten(g))
  }

  /** Number of empty cells. */
  function Empties(g: Grid): nat
  {
    multiset(Flatten(g))[0]
  }

  lemma {:induction false} FlattenSums(a: seq<seq<int>>, b: seq<seq<int>>)
    requires |a| == |b| && forall i :: 0 <= i < |a| ==> Sum(a[i]) == Sum(b[i])
    ensures Sum(Flatten(a)) == Sum(Flatten(b))
    decreases |a|
  {
    if a != [] {
      SumConcat(a[0], Flatten(a[1..]));
      SumConcat(b[0], Flatten(b[1..]));
      FlattenSums(a[1..], b[1..]);
    }
  }

  lemma {:induction false} FlattenCounts(a: seq<seq<int>>, b: seq<seq<int>>)
    requires |a| == |b| && forall i :: 0 <= i < |a| ==> multiset(a[i]) == multiset(b[i])
    ensures multiset(Flatten(a)) == multiset(Flatten(b))
    decreases |a|
  {
    if a != [] {
      FlattenCounts(a[1..], b[1..]);
    }
  }

  lemma {:induction false} FlattenEmptiesGrow(a: seq<seq<int>>, b: seq<seq<int>>)
    requires |a| == |b| && forall i :: 0 <= i < |a| ==> multiset(a[i])[0] <= multiset(b[i])[0]
    ensures multiset(Flatten(a))[0] <= multiset(Flatten(b))[0]
    decreases |a|
  {
    if a != [] {
      FlattenEmptiesGrow(a[1..], b[1..]);
    }
  }

  lemma {:induction false} FlattenHoldsLine(a: seq<seq<int>>, i: nat)
    requires i < |a|
    ensures multiset(Flatten(a))[0] >= multiset(a[i])[0]
    decreases |a|
  {
    if i > 0 {
      FlattenHoldsLine(a[1..], i - 1);
    }
  }

  /** The sixteen cells, row by row. */
  lemma FlattenGrid(g: Grid)
    requires IsGrid(g)
    ensures Flatten(g) == g[0] + g[1] + g[2] + g[3]
  {
    assert g[1..][1..][1..][1..] == [];
    assert Flatten(g[3..]) == g[3];
    assert Flatten(g[2..]) == g[2] + g[3];
    assert Flatten(g[1..]) == g[1] + g[2] + g[3];
  }

  /** The number of cells of a four-cell line holding `v`. */
  function Hits(xs: seq<int>, v: int): nat
    requires |xs| == Size
  {
    Hit(xs[0], v) + Hit(xs[1], v) + Hit(xs[2], v) + Hit(xs[3], v)
  }

  function Hit(x: int, v: int): nat
  {
    if x == v then 1 else 0
  }

  lemma RowSum(xs: seq<int>)
    requires |xs| == Size
    ensures Sum(xs) == xs[0] + xs[1] + xs[2] + xs[3]
  {
    var a := xs[1..];
    var b := a[1..];
    var c := b[1..];
    assert c[1..] == [];
    assert Sum(c) == c[0];
    assert Sum(b) == b[0] + Sum(c);
    assert Sum(a) == a[0] + Sum(b);
  }

  lemma RowCount(xs: seq<int>, v: int)
    requires |xs| == Size
    ensures multiset(xs)[v] == Hits(xs, v)
  {
    assert xs == [xs[0]] + [xs[1]] + [xs[2]] + [xs[3]];
  }

  /** Sum and count of a whole grid, row by row. */
  lemma GridByRows(g: Grid, v: int)
    requires IsGrid(g)
    ensures Sum(Flatten(g)) == Sum(g[0]) + Sum(g[1]) + Sum(g[2]) + Sum(g[3])
    ensures multiset(Flatten(g))[v] == Hits(g[0], v) + Hits(g[1], v) + Hits(g[2], v) + Hits(g[3], v)
  {
    FlattenGrid(g);
    SumConcat(g[0] + g[1] + g[2], g[3]);
    SumConcat(g[0] + g[1], g[2]);
    SumConcat(g[0], g[1]);
    RowCount(g[0], v);
    RowCount(g[1], v);
    RowCount(g[2], v);
    RowCount(g[3], v);
  }

  /** Transposing a grid keeps its tile sum. */
  lemma TransposeSum(g: Grid)
    requires IsGrid(g)
    ensures Sum(Flatten(Transpose(g))) == Sum(Flatten(g))
  {
    var t := Transpose(g);
    GridByRows(g, 0);
    GridByRows(t, 0);
    RowSum(g[0]);
    RowSum(g[1]);
    RowSum(g[2]);
    RowSum(g[3]);
    RowSum(t[0]);
    RowSum(t[1]);
    RowSum(t[2]);
    RowSum(t[3]);
  }

  /** Transposing a grid keeps the number of cells holding any value. */
  lemma TransposeCount(g: Grid, v: int)
    requires IsGrid(g)
    ensures multiset(Flatten(Transpose(g)))[v] == multiset(Flatten(g))[v]
  {
    var t := Transpose(g);
    GridByRows(g, v);
    GridByRows(t, v);
    assert Hits(t[0], v) == Hit(g[0][0], v) + Hit(g[1][0], v) + Hit(g[2][0], v) + Hit(g[3][0], v);
    assert Hits(t[1], v) == Hit(g[0][1], v) + Hit(g[1][1], v) + Hit(g[2][1], v) + Hit(g[3][1], v);
    assert Hits(t[2], v) == Hit(g[0][2], v) + Hit(g[1][2], v) + Hit(g[2][2], v) + Hit(g[3][2], v);
    assert Hits(t[3], v) == Hit(g[0][3], v) + Hit(g[1][3], v) + Hit(g[2][3], v) + Hit(g[3][3], v);
  }

  /** The line views hold the grid's cells, only reordered. */
  lemma LinesContents(g: Grid, d: Direction)
    requires IsGrid(g)
    ensures Sum(Flatten(Lines(g, d))) == Total(g)
    ensures multiset(Flatten(Lines(g, d)))[0] == Empties(g)
  {
    match d
    case Left =>
    case Right =>
      ReversedContents(g);
    case Up =>
      TransposeSum(g);
      TransposeCount(g, 0);
    case Down =>
      TransposeSum(g);
      TransposeCount(g, 0);
      ReversedContents(Transpose(g));
  }

  lemma ReversedContents(ls: seq<seq<int>>)
    ensures Sum(Flatten(Reversed(ls))) == Sum(Flatten(ls))
    ensures multiset(Flatten(Reversed(ls))) == multiset(Flatten(ls))
  {
    forall i | 0 <= i < |ls|
      ensures Sum(Reversed(ls)[i]) == Sum(ls[i]) && multiset(Reversed(ls)[i]) == multiset(ls[i])
    {
      SumReverse(ls[i]);
      ReverseMultiset(ls[i]);
    }
    FlattenSums(Reversed(ls), ls);
    FlattenCounts(Reversed(ls), ls);
  }

  /** A move, before its spawn, keeps the total of the tiles. */
  lemma MoveKeepsTotal(g: Grid, d: Direction)
    requires IsGrid(g)
    ensures Total(Move(g, d).grid) == Total(g)
  {
    var m := Move(g, d);
    MoveFollowsRule(g, d);
    LinesContents(g, d);
    LinesContents(m.grid, d);
    forall i | 0 <= i < Size
      ensures Sum(Lines(m.grid, d)[i]) == Sum(Lines(g, d)[i])
    {
      SlideSpecSum(Lines(g, d)[i]);
    }
    FlattenSums(Lines(m.grid, d), Lines(g, d));
  }

  /** A move, before its spawn, never adds a tile: the empty cells do not decrease. */
  lemma MoveKeepsRoom(g: Grid, d: Direction)
    requires IsGrid(g)
    ensures Empties(Move(g, d).grid) >= Empties(g)
  {
    var m := Move(g, d);
    MoveFollowsRule(g, d);
    LinesContents(g, d);
    LinesContents(m.grid, d);
    RuleKeepsRoom(Lines(g, d), Lines(m.grid, d));
  }

  lemma RuleKeepsRoom(ls: seq<seq<int>>, out: seq<seq<int>>)
    requires |out| == |ls| && forall i :: 0 <= i < |ls| ==> out[i] == SlideSpec(ls[i])
    ensures multiset(Flatten(out))[0] >= multiset(Flatten(ls))[0]
  {
    forall i | 0 <= i < |ls|
      ensures multiset(ls[i])[0] <= multiset(out[i])[0]
    {
      SlideSpecEmpties(ls[i]);
    }
    FlattenEmptiesGrow(ls, out);
  }

  /** A move that changed the grid leaves an empty cell for the spawn, so the source's
      `rand() % count_empty_spots()` never divides by zero. */
  lemma MovedLeavesRoom(g: Grid, d: Direction)
    requires IsGrid(g) && Move(g, d).changed
    ensures Empties(Move(g, d).grid) > 0
  {
    var m := Move(g, d);
    MoveFollowsRule(g, d);
    var ls := Lines(g, d);
    var i :| 0 <= i < |ls| && SlideSpec(ls[i]) != ls[i];
    SlideSpecChangedHasRoom(ls[i]);
    SlideSpecEmpties(ls[i]);
    FlattenHoldsLine(Lines(m.grid, d), i);
    LinesContents(m.grid, d);
  }

  /** A move that changed nothing earned nothing. */
  lemma StillMoveEarnsNothing(g: Grid, d: Direction)
    requires IsGrid(g) && !Move(g, d).changed
    ensures Move(g, d).gain == 0
  {
    MoveFollowsRule(g, d);
    var ls := Lines(g, d);
    forall i | 0 <= i < |ls|
      ensures Gain(NonZero(ls[i])) == 0
    {
      SlideSpecFixed(ls[i]);
    }
    RuleGainZero(ls);
  }

  lemma {:induction false} RuleGainZero(ls: seq<seq<int>>)
    requires forall i :: 0 <= i < |ls| ==> Gain(NonZero(ls[i])) == 0
    ensures RuleGain(ls) == 0
    decreases |ls|
  {
    if ls != [] {
      RuleGainZero(ls[1..]);
    }
  }

  // ---------------------------------------------------------------------------------------
  // count_empty_spots and check_game_status (2048.c:229-245, 320-350)
  // ---------------------------------------------------------------------------------------

  lemma {:induction false} FlattenSnoc(ls: seq<seq<int>>, x: seq<int>)
    ensures Flatten(ls + [x]) == Flatten(ls) + x
    decreases |ls|
  {
    if ls == [] {
      assert [] + [x] == [x];
    } else {
      assert (ls + [x])[1..] == ls[1..] + [x];
      FlattenSnoc(ls[1..], x);
    }
  }

  /** The nested counting loop of count_empty_spots. */
  method CountEmptySpots(g: Grid) returns (n: nat)
    requires IsGrid(g)
    ensures n == Empties(g)
  {
    n := 0;
    var r := 0;
    while r < Size
      invariant 0 <= r <= Size
      invariant n == multiset(Flatten(g[..r]))[0]
    {
      var c := 0;
      while c < Size
        invariant 0 <= c <= Size
        invariant n == multiset(Flatten(g[..r]))[0] + multiset(g[r][..c])[0]
      {
        assert g[r][..c + 1] == g[r][..c] + [g[r][c]];
        if g[r][c] == 0 {
          n := n + 1;
        }
        c := c + 1;
      }
      assert g[r][..Size] == g[r];
      assert g[..r + 1] == g[..r] + [g[r]];
      FlattenSnoc(g[..r], g[r]);
      r := r + 1;
    }
    assert g[..Size] == g;
  }

  /** The empty count is zero exactly when every cell holds a tile. */
  lemma EmptiesZero(g: Grid)
    requires IsGrid(g)
    ensures Empties(g) == 0 <==> forall r, c :: 0 <= r < Size && 0 <= c < Size ==> g[r][c] != 0
  {
    assert Rows(g);
    if exists r, c :: 0 <= r < Size && 0 <= c < Size && g[r][c] == 0 {
      var r, c :| 0 <= r < Size && 0 <= c < Size && g[r][c] == 0;
      FlattenAt(g, Size * r + c);
      assert Flatten(g)[Size * r + c] == 0;
    }
    if Empties(g) > 0 {
      assert 0 in Flatten(g);
      var p :| 0 <= p < |Flatten(g)| && Flatten(g)[p] == 0;
      FlattenAt(g, p);
      assert g[p / Size][p % Size] == 0;
    }
  }

  /** No empty cell and no two equal neighbours in a row or a column. */
  predicate Stuck(g: Grid)
    requires IsGrid(g)
  {
    && (forall r, c :: 0 <= r < Size && 0 <= c < Size ==> g[r][c] != 0)
    && (forall r, c :: 0 <= r < Size && 0 <= c < Size - 1 ==> g[r][c] != g[r][c + 1])
    && (forall r, c :: 0 <= r < Size - 1 && 0 <= c < Size ==> BelowDiffers(g, r, c))
  }

  /** The cell below (r, c) holds a different value. */
  predicate BelowDiffers(g: Grid, r: nat, c: nat)
    requires IsGrid(g) && r < Size - 1 && c < Size
  {
    g[r][c] != g[r + 1][c]
  }

  /** check_game_status: the count of empty cells, then the row pairs, then the column
      pairs, returning as soon as one shows a move is left. */
  method CheckGameStatus(g: Grid) returns (over: bool)
    requires IsGrid(g)
    ensures over <==> Stuck(g)
  {
    var empty := CountEmptySpots(g);
    EmptiesZero(g);
    if empty != 0 {
      return false;
    }
    var r := 0;
    while r < Size
      invariant 0 <= r <= Size
      invariant forall i, c :: 0 <= i < r && 0 <= c < Size - 1 ==> g[i][c] != g[i][c + 1]
    {
      var c := 0;
      while c < Size - 1
        invariant 0 <= c <= Size - 1
        invariant forall j :: 0 <= j < c ==> g[r][j] != g[r][j + 1]
      {
        if g[r][c] == g[r][c + 1] {
          return false;
        }
        c := c + 1;
      }
      r := r + 1;
    }
    var c := 0;
    while c < Size
      invariant 0 <= c <= Size
      invariant forall i, j :: 0 <= i < Size - 1 && 0 <= j < c ==> BelowDiffers(g, i, j)
    {
      var i := 0;
      while i < Size - 1
        invariant 0 <= i <= Size - 1
        invariant forall k :: 0 <= k < i ==> BelowDiffers(g, k, c)
      {
        if g[i][c] == g[i + 1][c] {
          assert !BelowDiffers(g, i, c);
          return false;
        }
        i := i + 1;
      }
      c := c + 1;
    }
    return true;
  }

  /** Every line of a stuck grid, in every direction, is full and has no equal neighbours. */
  lemma StuckLines(g: Grid, d: Direction, i: nat)
    requires IsGrid(g) && Stuck(g) && i < Size
    ensures forall j :: 0 <= j < Size ==> Lines(g, d)[i][j] != 0
    ensures NoPair(Lines(g, d)[i])
  {
    var t := Transpose(g);
    assert NoPair(g[i]);
    assert NoPair(t[i]) by {
      forall j | 0 <= j < Size - 1
        ensures t[i][j] != t[i][j + 1]
      {
        assert BelowDiffers(g, j, i);
      }
    }
    ReverseNoPair(g[i]);
    ReverseNoPair(t[i]);
  }

  /** The game-over rule as the game states it: a full grid is stuck exactly when no arrow
      key changes it. */
  lemma StuckIffNoMove(g: Grid)
    requires IsGrid(g) && Empties(g) == 0
    ensures Stuck(g) <==> forall d :: !Move(g, d).changed
  {
    EmptiesZero(g);
    if Stuck(g) {
      forall d | true
        ensures !Move(g, d).changed
      {
        StuckMeansStill(g, d);
      }
    } else if exists r, c :: 0 <= r < Size && 0 <= c < Size - 1 && g[r][c] == g[r][c + 1] {
      var r, c :| 0 <= r < Size && 0 <= c < Size - 1 && g[r][c] == g[r][c + 1];
      RowPairMoves(g, r, c);
    } else {
      var r, c :| 0 <= r < Size - 1 && 0 <= c < Size && !BelowDiffers(g, r, c);
      ColumnPairMoves(g, r, c);
    }
  }

  lemma StuckMeansStill(g: Grid, d: Direction)
    requires IsGrid(g) && Stuck(g)
    ensures !Move(g, d).changed
  {
    MoveFollowsRule(g, d);
    var ls := Lines(g, d);
    forall i | 0 <= i < Size
      ensures SlideSpec(ls[i]) == ls[i]
    {
      StuckLines(g, d, i);
      FullLineFixed(ls[i]);
    }
  }

  /** In a full grid, two equal neighbours in a row let the leftward key move. */
  lemma RowPairMoves(g: Grid, r: nat, c: nat)
    requires IsGrid(g) && (forall i, j :: 0 <= i < Size && 0 <= j < Size ==> g[i][j] != 0)
    requires r < Size && c < Size - 1 && g[r][c] == g[r][c + 1]
    ensures Move(g, Left).changed
  {
    MoveFollowsRule(g, Left);
    FullLineFixed(g[r]);
    assert !NoPair(g[r]);
    assert SlideSpec(Lines(g, Left)[r]) != Lines(g, Left)[r];
  }

  /** In a full grid, two equal neighbours in a column let the upward key move. */
  lemma ColumnPairMoves(g: Grid, r: nat, c: nat)
    requires IsGrid(g) && (forall i, j :: 0 <= i < Size && 0 <= j < Size ==> g[i][j] != 0)
    requires r < Size - 1 && c < Size && !BelowDiffers(g, r, c)
    ensures Move(g, Up).changed
  {
    var t := Transpose(g);
    MoveFollowsRule(g, Up);
    FullLineFixed(t[c]);
    assert t[c][r] == t[c][r + 1];
    assert !NoPair(t[c]);
    assert SlideSpec(Lines(g, Up)[c]) != Lines(g, Up)[c];
  }

  // ---------------------------------------------------------------------------------------
  // generate_tile and generate_tile_value (2048.c:197-221, 254-268)
  // ---------------------------------------------------------------------------------------

  /** Position of the `k`-th empty cell (counting from 0) at or after position `p`. */
  function NthEmpty(f: seq<int>, p: nat, k: nat): (q: nat)
    requires p <= |f| && k < multiset(f[p..])[0]
    ensures p <= q < |f| && f[q] == 0 && multiset(f[p..q])[0] == k
    decreases |f| - p
  {
    assert f[p..] == [f[p]] + f[p + 1..];
    if f[p] == 0 && k == 0 then p
    else
      var q := NthEmpty(f, p + 1, if f[p] == 0 then k - 1 else k);
      assert f[p..q] == [f[p]] + f[p + 1..q];
      q
  }

  /** The cell generate_tile fills: its row-major walk skips `draw % count_empty_spots()`
      empty cells and stops at the next one. */
  function SpawnCell(g: Grid, draw: nat): (rc: (nat, nat))
    requires IsGrid(g) && Empties(g) > 0
    ensures rc.0 < Size && rc.1 < Size && g[rc.0][rc.1] == 0
    ensures multiset(Flatten(g)[..Size * rc.0 + rc.1])[0] == draw % Empties(g)
  {
    var f := Flatten(g);
    assert Rows(g) && f[0..] == f;
    var q := NthEmpty(f, 0, draw % Empties(g));
    FlattenAt(g, q);
    (q / Size, q % Size)
  }

  /** generate_tile with its random index `draw` and the tile value `v`. */
  function Spawn(g: Grid, draw: nat, v: int): (s: Grid)
    requires IsGrid(g) && Empties(g) > 0
    ensures IsGrid(s)
  {
    var rc := SpawnCell(g, draw);
    g[rc.0 := g[rc.0][rc.1 := v]]
  }

  lemma {:induction false} FlattenUpdate(ls: seq<seq<int>>, r: nat, c: nat, v: int)
    requires Rows(ls) && r < |ls| && c < Size
    ensures Flatten(ls[r := ls[r][c := v]]) == Flatten(ls)[Size * r + c := v]
    decreases |ls|
  {
    var u := ls[r := ls[r][c := v]];
    if r == 0 {
      assert u[1..] == ls[1..];
    } else {
      assert u[1..] == ls[1..][r - 1 := ls[1..][r - 1][c := v]];
      FlattenUpdate(ls[1..], r - 1, c, v);
    }
  }

  lemma {:induction false} SumUpdate(f: seq<int>, q: nat, v: int)
    requires q < |f|
    ensures Sum(f[q := v]) == Sum(f) - f[q] + v
    decreases |f|
  {
    if q > 0 {
      assert f[q := v][1..] == f[1..][q - 1 := v];
      SumUpdate(f[1..], q - 1, v);
    }
  }

  /** generate_tile writes the tile into the chosen empty cell and touches nothing else: one
      empty cell fewer, the total up by the tile. */
  lemma SpawnPlaces(g: Grid, draw: nat, v: int)
    requires IsGrid(g) && Empties(g) > 0 && v != 0
    ensures var rc := SpawnCell(g, draw);
      && Spawn(g, draw, v)[rc.0][rc.1] == v
      && (forall r, c :: 0 <= r < Size && 0 <= c < Size && (r, c) != rc ==> Spawn(g, draw, v)[r][c] == g[r][c])
    ensures Empties(Spawn(g, draw, v)) == Empties(g) - 1
    ensures Total(Spawn(g, draw, v)) == Total(g) + v
  {
    var rc := SpawnCell(g, draw);
    assert Rows(g);
    FlattenUpdate(g, rc.0, rc.1, v);
    FlattenAt(g, Size * rc.0 + rc.1);
    SumUpdate(Flatten(g), Size * rc.0 + rc.1, v);
  }

  /** generate_tile_value: 2, or with the flag set 4 when the draw is a multiple of ten. */
  function TileValue(random: bool, draw: nat): (v: int)
    ensures v == 2 || v == 4
    ensures !random ==> v == 2
    ensures v == 4 <==> random && draw % 10 == 0
  {
    if random && draw % 10 == 0 then 4 else 2
  }

  // ---------------------------------------------------------------------------------------
  // A game: initialize_game and one arrow key (2048.c:172-188, 403-635)
  // ---------------------------------------------------------------------------------------

  datatype Game = Game(grid: Grid, score: int)

  function EmptyGrid(): (g: Grid)
    ensures IsGrid(g) && forall r, c :: 0 <= r < Size && 0 <= c < Size ==> g[r][c] == 0
  {
    seq(Size, _ => seq(Size, _ => 0))
  }

  lemma EmptyGridCounts()
    ensures Empties(EmptyGrid()) == Size * Size && Total(EmptyGrid()) == 0
  {
    var g := EmptyGrid();
    GridByRows(g, 0);
    RowSum(g[0]);
    RowSum(g[1]);
    RowSum(g[2]);
    RowSum(g[3]);
  }

  /** initialize_game with the three random draws it makes: the index of the first tile, the
      index of the second, and the value draw of the second. */
  function InitializeGame(first: nat, second: nat, valueDraw: nat): (game: Game)
    ensures IsGrid(game.grid) && game.score == 0
    ensures Empties(game.grid) == Size * Size - 2
    ensures Total(game.grid) == 2 + TileValue(true, valueDraw)
  {
    EmptyGridCounts();
    var g1 := Spawn(EmptyGrid(), first, TileValue(false, 0));
    SpawnPlaces(EmptyGrid(), first, TileValue(false, 0));
    var g2 := Spawn(g1, second, TileValue(true, valueDraw));
    SpawnPlaces(g1, second, TileValue(true, valueDraw));
    Game(g2, 0)
  }

  /** A new game holds exactly two tiles, in different cells: a 2 from the first draw and a
      tile of the value draw from the second; every other cell is empty. */
  lemma InitializeGameTiles(first: nat, second: nat, valueDraw: nat)
    ensures var g := InitializeGame(first, second, valueDraw).grid;
      exists r1, c1, r2, c2 ::
        0 <= r1 < Size && 0 <= c1 < Size && 0 <= r2 < Size && 0 <= c2 < Size && (r1, c1) != (r2, c2) &&
        g[r1][c1] == 2 && g[r2][c2] == TileValue(true, valueDraw) &&
        forall r, c :: 0 <= r < Size && 0 <= c < Size && (r, c) != (r1, c1) && (r, c) != (r2, c2) ==> g[r][c] == 0
  {
    EmptyGridCounts();
    var e := EmptyGrid();
    var v := TileValue(true, valueDraw);
    var rc1 := SpawnCell(e, first);
    var g1 := Spawn(e, first, 2);
    SpawnPlaces(e, first, 2);
    var rc2 := SpawnCell(g1, second);
    var g2 := Spawn(g1, second, v);
    SpawnPlaces(g1, second, v);
    assert g2 == InitializeGame(first, second, valueDraw).grid;
    assert g1[rc1.0][rc1.1] == 2 && g1[rc2.0][rc2.1] == 0;
    assert g2[rc1.0][rc1.1] == 2;
  }

  /** One arrow key: the move, its points, and a spawned tile only when the grid changed. */
  function Play(game: Game, d: Direction, draw: nat, valueDraw: nat): (next: Game)
    requires IsGrid(game.grid)
    ensures IsGrid(next.grid)
  {
    var m := Move(game.grid, d);
    if m.changed then
      MovedLeavesRoom(game.grid, d);
      Game(Spawn(m.grid, draw, TileValue(true, valueDraw)), game.score + m.gain)
    else
      Game(m.grid, game.score + m.gain)
  }

  /** An arrow key scores exactly the merge rule's points; a key that moves nothing leaves
      the game as it was; a key that moves something adds one 2 or 4 tile, so the grid always
      ends up different and its total grows by that tile. */
  lemma PlayEffect(game: Game, d: Direction, draw: nat, valueDraw: nat)
    requires IsGrid(game.grid)
    ensures Play(game, d, draw, valueDraw).score == game.score + RuleGain(Lines(game.grid, d))
    ensures !Move(game.grid, d).changed ==> Play(game, d, draw, valueDraw) == game
    ensures Move(game.grid, d).changed ==>
      && Total(Play(game, d, draw, valueDraw).grid) == Total(game.grid) + TileValue(true, valueDraw)
      && Play(game, d, draw, valueDraw).grid != game.grid
  {
    var g := game.grid;
    var m := Move(g, d);
    MoveGainFlag(g, d);
    MoveKeepsTotal(g, d);
    if m.changed {
      MovedLeavesRoom(g, d);
      var v := TileValue(true, valueDraw);
      SpawnPlaces(m.grid, draw, v);
      assert Total(Play(game, d, draw, valueDraw).grid) == Total(g) + v;
    } else {
      StillMoveEarnsNothing(g, d);
    }
  }

  /** A move's points are the merge rule's, and its flag says whether the grid changed. */
  lemma MoveGainFlag(g: Grid, d: Direction)
    requires IsGrid(g)
    ensures Move(g, d).gain == RuleGain(Lines(g, d))
    ensures Move(g, d).changed <==> Move(g, d).grid != g
  {
    MoveFollowsRule(g, d);
  }
}
