/** One line of the 2048 grid, read in the direction the tiles move: element 0 touches the
    wall the tiles slide toward.  This module holds the merge rule stated as a reference
    definition and the in-place loop shared by the four move functions of 2048.c, modelled as
    a step function over the loop index, together with the lemmas that tie the two. */
module SlideLine {

  // ---------------------------------------------------------------------------------------
  // Sequence helpers
  // ---------------------------------------------------------------------------------------

  function Sum(xs: seq<int>): int
  {
    if xs == [] then 0 else xs[0] + Sum(xs[1..])
  }

  lemma {:induction false} SumConcat(a: seq<int>, b: seq<int>)
    ensures Sum(a + b) == Sum(a) + Sum(b)
    decreases |a|
  {
    if a == [] {
      assert a + b == b;
    } else {
      assert (a + b)[1..] == a[1..] + b;
      SumConcat(a[1..], b);
    }
  }

  function Zeros(n: nat): (z: seq<int>)
    ensures |z| == n && forall i :: 0 <= i < n ==> z[i] == 0
  {
    seq(n, _ => 0)
  }

  lemma {:induction false} SumZeros(n: nat)
    ensures Sum(Zeros(n)) == 0
    decreases n
  {
    if n > 0 {
      assert Zeros(n)[1..] == Zeros(n - 1);
      SumZeros(n - 1);
    }
  }

  function Reverse(xs: seq<int>): (r: seq<int>)
    ensures |r| == |xs|
    ensures forall i :: 0 <= i < |xs| ==> r[i] == xs[|xs| - 1 - i]
  {
    seq(|xs|, i requires 0 <= i < |xs| => xs[|xs| - 1 - i])
  }

  lemma ReverseReverse(xs: seq<int>)
    ensures Reverse(Reverse(xs)) == xs
  {
  }

  lemma {:induction false} SumReverse(xs: seq<int>)
    ensures Sum(Reverse(xs)) == Sum(xs)
    decreases |xs|
  {
    if xs != [] {
      var n := |xs|;
      assert Reverse(xs) == Reverse(xs[1..]) + [xs[0]];
      SumConcat(Reverse(xs[1..]), [xs[0]]);
      SumReverse(xs[1..]);
    }
  }

  // ---------------------------------------------------------------------------------------
  // The merge rule, as the game describes it (2048.c:650-654)
  // ---------------------------------------------------------------------------------------

  /** The non-zero tiles of a line, in order. */
  function NonZero(xs: seq<int>): (ts: seq<int>)
    ensures |ts| <= |xs|
    ensures forall i :: 0 <= i < |ts| ==> ts[i] != 0
    ensures (forall i :: 0 <= i < |xs| ==> xs[i] != 0) ==> ts == xs
  {
    if xs == [] then []
    else
      assert xs == xs[..|xs| - 1] + [xs[|xs| - 1]];
      NonZero(xs[..|xs| - 1]) + (if xs[|xs| - 1] != 0 then [xs[|xs| - 1]] else [])
  }

  /** Equal neighbours merge front to back; a merged tile does not merge again. */
  function Merge(ts: seq<int>): (ms: seq<int>)
    ensures |ms| <= |ts|
    ensures |ms| == 0 <==> |ts| == 0
    ensures (forall i :: 0 <= i < |ts| ==> ts[i] != 0) ==> forall i :: 0 <= i < |ms| ==> ms[i] != 0
  {
    if |ts| >= 2 && ts[0] == ts[1] then [2 * ts[0]] + Merge(ts[2..])
    else if |ts| >= 1 then [ts[0]] + Merge(ts[1..])
    else []
  }

  /** Points earned by merging a tile sequence: the value of every tile a merge produces. */
  function Gain(ts: seq<int>): int
  {
    if |ts| >= 2 && ts[0] == ts[1] then 2 * ts[0] + Gain(ts[2..])
    else if |ts| >= 1 then Gain(ts[1..])
    else 0
  }

  /** The last tile of `ts` is left over by the merge, so a tile appended after it may still
      merge with it. */
  predicate Pending(ts: seq<int>)
  {
    if |ts| >= 2 && ts[0] == ts[1] then Pending(ts[2..])
    else if |ts| == 1 then true
    else if |ts| >= 2 then Pending(ts[1..])
    else false
  }

  /** A whole line after one move: merged tiles first, then empty cells. */
  function SlideSpec(xs: seq<int>): seq<int>
  {
    var ms := Merge(NonZero(xs));
    ms + Zeros(|xs| - |ms|)
  }

  lemma {:induction false} MergeSum(ts: seq<int>)
    ensures Sum(Merge(ts)) == Sum(ts)
    decreases |ts|
  {
    if |ts| >= 2 && ts[0] == ts[1] {
      MergeSum(ts[2..]);
      SumConcat([2 * ts[0]], Merge(ts[2..]));
      assert ts[1..][1..] == ts[2..];
    } else if |ts| >= 1 {
      MergeSum(ts[1..]);
      SumConcat([ts[0]], Merge(ts[1..]));
    }
  }

  lemma {:induction false} NonZeroSum(xs: seq<int>)
    ensures Sum(NonZero(xs)) == Sum(xs)
    decreases |xs|
  {
    if xs != [] {
      var n := |xs|;
      var init := xs[..n - 1];
      assert xs == init + [xs[n - 1]];
      NonZeroSum(init);
      SumConcat(init, [xs[n - 1]]);
      SumConcat(NonZero(init), if xs[n - 1] != 0 then [xs[n - 1]] else []);
    }
  }

  /** A merge that keeps every tile merged nothing and earned nothing. */
  lemma {:induction false} MergeKeepsAll(ts: seq<int>)
    requires |Merge(ts)| == |ts|
    ensures Merge(ts) == ts && Gain(ts) == 0
    decreases |ts|
  {
    if |ts| >= 2 && ts[0] == ts[1] {
      assert false;
    } else if |ts| >= 1 {
      MergeKeepsAll(ts[1..]);
    }
  }

  /** The merge rule of the game moves tile value around but never creates or destroys it. */
  lemma SlideSpecSum(xs: seq<int>)
    ensures Sum(SlideSpec(xs)) == Sum(xs)
  {
    var ms := Merge(NonZero(xs));
    SumConcat(ms, Zeros(|xs| - |ms|));
    SumZeros(|xs| - |ms|);
    MergeSum(NonZero(xs));
    NonZeroSum(xs);
  }

  /** A line the rule does not change is already compact and has no adjacent equal tiles;
      in particular it earns nothing. */
  lemma SlideSpecFixed(xs: seq<int>)
    requires SlideSpec(xs) == xs
    ensures Gain(NonZero(xs)) == 0
  {
    var ts := NonZero(xs);
    var ms := Merge(ts);
    NonZeroOfPadded(ms, |xs| - |ms|);
    assert ms == ts;
    MergeKeepsAll(ts);
  }

  lemma {:induction false} NonZeroOfPadded(ms: seq<int>, n: nat)
    requires forall i :: 0 <= i < |ms| ==> ms[i] != 0
    ensures NonZero(ms + Zeros(n)) == ms
    decreases n
  {
    if n == 0 {
      assert ms + Zeros(0) == ms;
    } else {
      var s := ms + Zeros(n);
      assert s[..|s| - 1] == ms + Zeros(n - 1);
      NonZeroOfPadded(ms, n - 1);
    }
  }

  /** A full line that the rule keeps whole is left exactly as it was. */
  lemma NoRoomMeansFixed(xs: seq<int>)
    requires |Merge(NonZero(xs))| == |xs|
    ensures SlideSpec(xs) == xs
  {
    var ts := NonZero(xs);
    AllTilesWhenNoneDropped(xs);
    MergeKeepsAll(ts);
    assert SlideSpec(xs) == ts + Zeros(0);
  }

  /** When a line changes, the rule leaves at least one empty cell in it. */
  lemma SlideSpecChangedHasRoom(xs: seq<int>)
    requires SlideSpec(xs) != xs
    ensures |Merge(NonZero(xs))| < |xs|
  {
    if |Merge(NonZero(xs))| == |xs| {
      NoRoomMeansFixed(xs);
    }
  }

  lemma {:induction false} AllTilesWhenNoneDropped(xs: seq<int>)
    requires |NonZero(xs)| == |xs|
    ensures NonZero(xs) == xs
    decreases |xs|
  {
    if xs != [] {
      var n := |xs|;
      assert |NonZero(xs[..n - 1])| <= n - 1;
      AllTilesWhenNoneDropped(xs[..n - 1]);
      assert xs == xs[..n - 1] + [xs[n - 1]];
    }
  }

  // ---------------------------------------------------------------------------------------
  // Incremental view of the merge rule: tiles absorbed one at a time, as the loop sees them
  // ---------------------------------------------------------------------------------------

  /** Output so far, whether its last tile may still merge, and points earned so far. */
  datatype Acc = Acc(out: seq<int>, open: bool, gain: int)

  function Absorb(a: Acc, t: int): Acc
  {
    if a.open && |a.out| > 0 && a.out[|a.out| - 1] == t
    then Acc(a.out[..|a.out| - 1] + [2 * t], false, a.gain + 2 * t)
    else Acc(a.out + [t], true, a.gain)
  }

  function FoldMerge(ts: seq<int>): (a: Acc)
    ensures |a.out| <= |ts|
    ensures a.open ==> |a.out| > 0
    ensures (forall i :: 0 <= i < |ts| ==> ts[i] != 0) ==> forall i :: 0 <= i < |a.out| ==> a.out[i] != 0
  {
    if ts == [] then Acc([], false, 0)
    else Absorb(FoldMerge(ts[..|ts| - 1]), ts[|ts| - 1])
  }

  /** The tile appended to `ts` merges with the leftover last tile of `Merge(ts)`. */
  predicate Joins(ts: seq<int>, t: int)
  {
    var ms := Merge(ts);
    Pending(ts) && |ms| > 0 && ms[|ms| - 1] == t
  }

  /** How appending one tile changes the merge, its points and its leftover flag. */
  ghost predicate SnocRule(ts: seq<int>, t: int)
  {
    && Merge(ts + [t]) ==
         (if Joins(ts, t) then Merge(ts)[..|Merge(ts)| - 1] + [2 * t] else Merge(ts) + [t])
    && Gain(ts + [t]) == Gain(ts) + (if Joins(ts, t) then 2 * t else 0)
    && Pending(ts + [t]) == !Joins(ts, t)
  }

  lemma {:induction false} MergeSnoc(ts: seq<int>, t: int)
    ensures Merge(ts + [t]) ==
              (if Joins(ts, t) then Merge(ts)[..|Merge(ts)| - 1] + [2 * t] else Merge(ts) + [t])
    ensures Gain(ts + [t]) == Gain(ts) + (if Joins(ts, t) then 2 * t else 0)
    ensures Pending(ts + [t]) == !Joins(ts, t)
    decreases |ts|, 1
  {
    var s := ts + [t];
    if |ts| >= 2 && ts[0] == ts[1] {
      MergeSnocPair(ts, t);
    } else if |ts| >= 2 {
      MergeSnocSingle(ts, t);
    } else if |ts| == 1 {
      assert s == [ts[0], t];
      assert s[2..] == [];
      assert s[1..] == [t];
    } else {
      assert s == [t];
    }
  }

  /** Appending behind a line that opens with a merged pair. */
  lemma {:induction false} MergeSnocPair(ts: seq<int>, t: int)
    requires |ts| >= 2 && ts[0] == ts[1]
    ensures SnocRule(ts, t)
    decreases |ts|, 0
  {
    var s := ts + [t];
    assert s[2..] == ts[2..] + [t];
    MergeSnoc(ts[2..], t);
    if |ts| == 2 {
      assert ts[2..] == [];
      assert s[2..] == [t];
      assert !Pending(ts[2..]);
    } else {
      var rest := Merge(ts[2..]);
      assert Merge(ts) == [2 * ts[0]] + rest;
      if Joins(ts[2..], t) {
        assert ([2 * ts[0]] + rest)[..|rest|] == [2 * ts[0]] + rest[..|rest| - 1];
      }
    }
  }

  /** Appending behind a line whose first tile stays alone. */
  lemma {:induction false} MergeSnocSingle(ts: seq<int>, t: int)
    requires |ts| >= 2 && ts[0] != ts[1]
    ensures SnocRule(ts, t)
    decreases |ts|, 0
  {
    var s := ts + [t];
    assert s[1..] == ts[1..] + [t];
    MergeSnoc(ts[1..], t);
    var rest := Merge(ts[1..]);
    assert Merge(ts) == [ts[0]] + rest;
    if Joins(ts[1..], t) {
      assert ([ts[0]] + rest)[..|rest|] == [ts[0]] + rest[..|rest| - 1];
    }
  }

  /** Absorbing tiles one at a time, as the loop does, yields exactly the merge rule. */
  lemma {:induction false} FoldMergeIsMerge(ts: seq<int>)
    ensures FoldMerge(ts) == Acc(Merge(ts), Pending(ts), Gain(ts))
    decreases |ts|
  {
    if ts != [] {
      var n := |ts|;
      var init := ts[..n - 1];
      assert ts == init + [ts[n - 1]];
      FoldMergeIsMerge(init);
      AbsorbRule(init, ts[n - 1]);
    }
  }

  /** Absorbing one more tile into the merge of `ts` gives the merge of `ts` with it. */
  lemma AbsorbRule(ts: seq<int>, t: int)
    ensures Absorb(Acc(Merge(ts), Pending(ts), Gain(ts)), t) == Acc(Merge(ts + [t]), Pending(ts + [t]), Gain(ts + [t]))
  {
    MergeSnoc(ts, t);
  }

  // ---------------------------------------------------------------------------------------
  // The in-place loop of move_tiles_left / move_tiles_up (2048.c:528-566, 408-446)
  // ---------------------------------------------------------------------------------------

  /** Loop state: the line being rewritten in place, the index of the collided tile (`wall`),
      whether that tile is the result of a merge, whether anything changed, points earned. */
  datatype Pass = Pass(cells: seq<int>, wall: nat, merged: bool, changed: bool, gain: int)

  /** One iteration of the inner loop at index `c`, the collided tile lying below `c`. */
  function Step(st: Pass, c: nat): (r: Pass)
    requires st.wall < c < |st.cells|
    ensures |r.cells| == |st.cells| && r.wall <= c
  {
    var t := st.cells[c];
    if t == 0 then st
    else if st.cells[st.wall] == 0 then
      st.(cells := st.cells[st.wall := t][c := 0], changed := true)
    else if st.cells[st.wall] == t && !st.merged then
      st.(cells := st.cells[st.wall := 2 * t][c := 0], merged := true, changed := true,
          gain := st.gain + 2 * t)
    else if st.wall + 1 != c then
      st.(cells := st.cells[st.wall + 1 := t][c := 0], wall := st.wall + 1, merged := false,
          changed := true)
    else
      st.(wall := st.wall + 1, merged := false)
  }

  /** The inner loop from index `c` to the end of the line. */
  function TowardStart(st: Pass, c: nat): (r: Pass)
    requires st.wall < c <= |st.cells|
    ensures |r.cells| == |st.cells|
    decreases |st.cells| - c
  {
    if c == |st.cells| then st else TowardStart(Step(st, c), c + 1)
  }

  /** The loop as the source starts it: collided index 0, scanning from index 1. */
  function SlideTowardStart(xs: seq<int>): (r: Pass)
    requires |xs| >= 1
    ensures |r.cells| == |xs|
  {
    TowardStart(Pass(xs, 0, false, false, 0), 1)
  }

  /** Cell `i` of the line once the tiles `out` have been written from the wall on. */
  function Written(out: seq<int>, i: nat): int
  {
    if i < |out| then out[i] else 0
  }

  /** The first `c` cells hold the merged output `a` so far, then empty cells, and the
      collided index and merge flag describe the last output tile. */
  ghost predicate Layout(st: Pass, c: nat, a: Acc)
  {
    && |a.out| <= c <= |st.cells|
    && (forall i :: 0 <= i < c ==> st.cells[i] == Written(a.out, i))
    && (|a.out| == 0 ==> st.wall == 0 && !st.merged)
    && (|a.out| > 0 ==> st.wall == |a.out| - 1 && st.merged == !a.open)
    && (forall i :: 0 <= i < |a.out| ==> a.out[i] != 0)
  }

  ghost function Seen(orig: seq<int>, c: nat): Acc
    requires c <= |orig|
  {
    FoldMerge(NonZero(orig[..c]))
  }

  /** Some cell before `c` differs from the original line. */
  ghost predicate DiffersBefore(cells: seq<int>, orig: seq<int>, c: nat)
    requires c <= |cells| && c <= |orig|
  {
    exists i :: 0 <= i < c && cells[i] != orig[i]
  }

  /** What holds each time the loop reaches index `c` of the line `orig`. */
  ghost predicate Inv(orig: seq<int>, st: Pass, c: nat)
  {
    && |st.cells| == |orig|
    && st.wall < c <= |orig|
    && (forall i :: c <= i < |orig| ==> st.cells[i] == orig[i])
    && Layout(st, c, Seen(orig, c))
    && st.gain == Seen(orig, c).gain
    && (st.changed <==> DiffersBefore(st.cells, orig, c))
  }

  lemma NonZeroSnoc(orig: seq<int>, c: nat)
    requires c < |orig|
    ensures NonZero(orig[..c + 1]) == NonZero(orig[..c]) + (if orig[c] != 0 then [orig[c]] else [])
  {
    assert orig[..c + 1][..c] == orig[..c];
  }

  lemma FoldSnoc(ts: seq<int>, t: int)
    ensures FoldMerge(ts + [t]) == Absorb(FoldMerge(ts), t)
  {
    assert (ts + [t])[..|ts|] == ts;
  }

  lemma SeenNext(orig: seq<int>, c: nat)
    requires c < |orig|
    ensures Seen(orig, c + 1) == if orig[c] == 0 then Seen(orig, c) else Absorb(Seen(orig, c), orig[c])
  {
    NonZeroSnoc(orig, c);
    if orig[c] != 0 {
      FoldSnoc(NonZero(orig[..c]), orig[c]);
    } else {
      assert NonZero(orig[..c]) + [] == NonZero(orig[..c]);
    }
  }

  lemma LayoutSlideToWall(st: Pass, c: nat, a: Acc, t: int)
    requires Layout(st, c, a) && st.wall < c < |st.cells| && t != 0 && st.cells[st.wall] == 0
    ensures Layout(st.(cells := st.cells[st.wall := t][c := 0], changed := true), c + 1, Absorb(a, t))
  {
    assert st.cells[st.wall] == Written(a.out, st.wall);
    assert Absorb(a, t).out == [t];
  }

  lemma LayoutMerge(st: Pass, c: nat, a: Acc, t: int)
    requires Layout(st, c, a) && st.wall < c < |st.cells| && t != 0
    requires st.cells[st.wall] == t && !st.merged
    ensures Layout(st.(cells := st.cells[st.wall := 2 * t][c := 0], merged := true), c + 1, Absorb(a, t))
  {
    assert st.cells[st.wall] == Written(a.out, st.wall);
    var n := |a.out|;
    assert Absorb(a, t).out == a.out[..n - 1] + [2 * t];
  }

  lemma LayoutStack(st: Pass, c: nat, a: Acc, t: int)
    requires Layout(st, c, a) && st.wall < c < |st.cells| && t != 0 && st.cells[c] == t
    requires st.cells[st.wall] != 0 && (st.cells[st.wall] != t || st.merged)
    ensures st.wall + 1 != c ==>
      Layout(st.(cells := st.cells[st.wall + 1 := t][c := 0], wall := st.wall + 1, merged := false), c + 1, Absorb(a, t))
    ensures st.wall + 1 == c ==>
      Layout(st.(wall := st.wall + 1, merged := false), c + 1, Absorb(a, t))
  {
    assert st.cells[st.wall] == Written(a.out, st.wall);
    assert Absorb(a, t).out == a.out + [t];
  }

  /** An empty cell is skipped. */
  lemma InvStepBlank(orig: seq<int>, st: Pass, c: nat)
    requires Inv(orig, st, c) && c < |orig| && st.cells[c] == 0
    ensures Inv(orig, Step(st, c), c + 1)
  {
    SeenNext(orig, c);
    var a := Seen(orig, c);
    assert DiffersBefore(st.cells, orig, c + 1) ==> DiffersBefore(st.cells, orig, c);
  }

  /** A tile written somewhere below `c` leaves `c` empty: the flag is rightly raised. */
  lemma InvStepMoved(orig: seq<int>, st: Pass, c: nat)
    requires Inv(orig, st, c) && c < |orig| && st.cells[c] != 0
    requires st.cells[st.wall] == 0 || (st.cells[st.wall] == st.cells[c] && !st.merged) || st.wall + 1 != c
    ensures Inv(orig, Step(st, c), c + 1)
  {
    if st.cells[st.wall] == 0 {
      InvStepToWall(orig, st, c);
    } else if st.cells[st.wall] == st.cells[c] && !st.merged {
      InvStepMerge(orig, st, c);
    } else {
      InvStepPush(orig, st, c);
    }
  }

  /** A tile slides onto the empty wall cell. */
  lemma InvStepToWall(orig: seq<int>, st: Pass, c: nat)
    requires Inv(orig, st, c) && c < |orig| && st.cells[c] != 0 && st.cells[st.wall] == 0
    ensures Inv(orig, Step(st, c), c + 1)
  {
    SeenNext(orig, c);
    LayoutSlideToWall(st, c, Seen(orig, c), st.cells[c]);
    assert Step(st, c).cells[c] != orig[c];
  }

  /** A tile merges into the equal, not yet merged tile at the wall. */
  lemma InvStepMerge(orig: seq<int>, st: Pass, c: nat)
    requires Inv(orig, st, c) && c < |orig| && st.cells[c] != 0
    requires st.cells[st.wall] == st.cells[c] && !st.merged
    ensures Inv(orig, Step(st, c), c + 1)
  {
    SeenNext(orig, c);
    LayoutMerge(st, c, Seen(orig, c), st.cells[c]);
    assert Step(st, c).cells[c] != orig[c];
  }

  /** A tile moves up to the cell after the wall tile. */
  lemma InvStepPush(orig: seq<int>, st: Pass, c: nat)
    requires Inv(orig, st, c) && c < |orig| && st.cells[c] != 0
    requires st.cells[st.wall] != 0 && (st.cells[st.wall] != st.cells[c] || st.merged) && st.wall + 1 != c
    ensures Inv(orig, Step(st, c), c + 1)
  {
    SeenNext(orig, c);
    LayoutStack(st, c, Seen(orig, c), st.cells[c]);
    assert Step(st, c).cells[c] != orig[c];
  }

  /** A tile that already sits right after the collided one stays put. */
  lemma InvStepStay(orig: seq<int>, st: Pass, c: nat)
    requires Inv(orig, st, c) && c < |orig| && st.cells[c] != 0
    requires st.cells[st.wall] != 0 && (st.cells[st.wall] != st.cells[c] || st.merged)
    requires st.wall + 1 == c
    ensures Inv(orig, Step(st, c), c + 1)
  {
    SeenNext(orig, c);
    LayoutStack(st, c, Seen(orig, c), st.cells[c]);
    assert DiffersBefore(st.cells, orig, c + 1) ==> DiffersBefore(st.cells, orig, c);
  }

  /** One iteration of the loop preserves `Inv`. */
  lemma InvStep(orig: seq<int>, st: Pass, c: nat)
    requires Inv(orig, st, c) && c < |orig|
    ensures Inv(orig, Step(st, c), c + 1)
  {
    var t := st.cells[c];
    if t == 0 {
      InvStepBlank(orig, st, c);
    } else if st.cells[st.wall] == 0 || (st.cells[st.wall] == t && !st.merged) || st.wall + 1 != c {
      InvStepMoved(orig, st, c);
    } else {
      InvStepStay(orig, st, c);
    }
  }

  lemma {:induction false} TowardStartKeepsInv(orig: seq<int>, st: Pass, c: nat)
    requires Inv(orig, st, c)
    ensures Inv(orig, TowardStart(st, c), |orig|)
    decreases |orig| - c
  {
    if c < |orig| {
      InvStep(orig, st, c);
      TowardStartKeepsInv(orig, Step(st, c), c + 1);
    }
  }

  lemma InvInit(xs: seq<int>)
    requires |xs| >= 1
    ensures Inv(xs, Pass(xs, 0, false, false, 0), 1)
  {
    SeenNext(xs, 0);
    assert xs[..0] == [];
  }

  /** At the end of the line the invariant says the line is the merge rule's output. */
  lemma InvFinal(xs: seq<int>, st: Pass)
    requires Inv(xs, st, |xs|)
    ensures st.cells == SlideSpec(xs)
    ensures st.gain == Gain(NonZero(xs))
    ensures st.changed <==> st.cells != xs
  {
    assert st.cells == SlideSpec(xs) by {
      SeenWhole(xs);
      LayoutWhole(st, Seen(xs, |xs|));
    }
    assert st.gain == Gain(NonZero(xs)) by {
      SeenWhole(xs);
    }
    DiffersSomewhere(st.cells, xs);
  }

  /** A layout that covers the whole line is the output followed by empty cells. */
  lemma LayoutWhole(st: Pass, a: Acc)
    requires Layout(st, |st.cells|, a)
    ensures st.cells == a.out + Zeros(|st.cells| - |a.out|)
  {
    PaddedAt(a.out, |st.cells| - |a.out|);
  }

  lemma SeenWhole(xs: seq<int>)
    ensures Seen(xs, |xs|) == Acc(Merge(NonZero(xs)), Pending(NonZero(xs)), Gain(NonZero(xs)))
  {
    assert xs[..|xs|] == xs;
    FoldMergeIsMerge(NonZero(xs));
  }

  lemma PaddedAt(ms: seq<int>, n: nat)
    ensures forall i :: 0 <= i < |ms| + n ==> (ms + Zeros(n))[i] == Written(ms, i)
  {
  }

  lemma DiffersSomewhere(a: seq<int>, b: seq<int>)
    requires |a| == |b|
    ensures DiffersBefore(a, b, |a|) <==> a != b
  {
    if a != b {
      assert !(forall i :: 0 <= i < |a| ==> a[i] == b[i]);
    }
  }

  /** The source's leftward loop on one line does exactly what the merge rule says, adds
      exactly the merge points to the score, and raises its flag exactly when the line changed. */
  lemma TowardStartMeetsRule(xs: seq<int>)
    requires |xs| >= 1
    ensures SlideTowardStart(xs).cells == SlideSpec(xs)
    ensures SlideTowardStart(xs).gain == Gain(NonZero(xs))
    ensures SlideTowardStart(xs).changed <==> SlideSpec(xs) != xs
  {
    InvInit(xs);
    TowardStartKeepsInv(xs, Pass(xs, 0, false, false, 0), 1);
    InvFinal(xs, SlideTowardStart(xs));
  }

  // ---------------------------------------------------------------------------------------
  // The mirrored loop of move_tiles_right / move_tiles_down (2048.c:588-626, 468-506)
  // ---------------------------------------------------------------------------------------

  /** One iteration of the downward loop at index `c`, the collided tile lying above `c`. */
  function StepDown(st: Pass, c: nat): (r: Pass)
    requires c < st.wall < |st.cells|
    ensures |r.cells| == |st.cells| && c <= r.wall < |r.cells|
  {
    var t := st.cells[c];
    if t == 0 then st
    else if st.cells[st.wall] == 0 then
      st.(cells := st.cells[st.wall := t][c := 0], changed := true)
    else if st.cells[st.wall] == t && !st.merged then
      st.(cells := st.cells[st.wall := 2 * t][c := 0], merged := true, changed := true,
          gain := st.gain + 2 * t)
    else if st.wall - 1 != c then
      st.(cells := st.cells[st.wall - 1 := t][c := 0], wall := st.wall - 1, merged := false,
          changed := true)
    else
      st.(wall := st.wall - 1, merged := false)
  }

  /** The downward loop from index `c` to the start of the line. */
  function TowardEnd(st: Pass, c: int): (r: Pass)
    requires -1 <= c < st.wall < |st.cells|
    ensures |r.cells| == |st.cells| && r.wall < |r.cells|
    decreases c + 1
  {
    if c < 0 then st else TowardEnd(StepDown(st, c), c - 1)
  }

  /** The loop as the source starts it: collided index at the far end, scanning downward. */
  function SlideTowardEnd(xs: seq<int>): (r: Pass)
    requires |xs| >= 1
    ensures |r.cells| == |xs|
  {
    TowardEnd(Pass(xs, |xs| - 1, false, false, 0), |xs| - 2)
  }

  /** The same state seen from the other end of the line. */
  function Mirror(st: Pass): (m: Pass)
    requires st.wall < |st.cells|
    ensures |m.cells| == |st.cells| && m.wall == |st.cells| - 1 - st.wall
  {
    st.(cells := Reverse(st.cells), wall := |st.cells| - 1 - st.wall)
  }

  lemma ReverseUpdate(s: seq<int>, i: nat, v: int)
    requires i < |s|
    ensures Reverse(s[i := v]) == Reverse(s)[|s| - 1 - i := v]
  {
  }

  /** One downward iteration is one upward iteration on the reversed line. */
  lemma StepDownMirrors(st: Pass, c: nat)
    requires c < st.wall < |st.cells|
    ensures Mirror(StepDown(st, c)) == Step(Mirror(st), |st.cells| - 1 - c)
  {
    var n := |st.cells|;
    var m := Mirror(st);
    var t := st.cells[c];
    assert m.cells[n - 1 - c] == t;
    assert m.cells[m.wall] == st.cells[st.wall];
    if t == 0 {
    } else if st.cells[st.wall] == 0 {
      ReverseUpdate(st.cells, st.wall, t);
      ReverseUpdate(st.cells[st.wall := t], c, 0);
    } else if st.cells[st.wall] == t && !st.merged {
      ReverseUpdate(st.cells, st.wall, 2 * t);
      ReverseUpdate(st.cells[st.wall := 2 * t], c, 0);
    } else if st.wall - 1 != c {
      ReverseUpdate(st.cells, st.wall - 1, t);
      ReverseUpdate(st.cells[st.wall - 1 := t], c, 0);
    }
  }

  /** The downward loop is the upward loop run on the reversed line, step for step. */
  lemma {:induction false} TowardEndMirrors(st: Pass, c: int)
    requires -1 <= c < st.wall < |st.cells|
    ensures Mirror(TowardEnd(st, c)) == TowardStart(Mirror(st), |st.cells| - 1 - c)
    decreases c + 1
  {
    if c >= 0 {
      StepDownMirrors(st, c);
      TowardEndMirrors(StepDown(st, c), c - 1);
    }
  }

  /** Rightward on a line is reverse, leftward, reverse: same cells, same points, same flag. */
  lemma TowardEndIsMirroredStart(xs: seq<int>)
    requires |xs| >= 1
    ensures SlideTowardEnd(xs).cells == Reverse(SlideTowardStart(Reverse(xs)).cells)
    ensures SlideTowardEnd(xs).gain == SlideTowardStart(Reverse(xs)).gain
    ensures SlideTowardEnd(xs).changed == SlideTowardStart(Reverse(xs)).changed
  {
    var st := Pass(xs, |xs| - 1, false, false, 0);
    TowardEndMirrors(st, |xs| - 2);
    assert Mirror(st) == Pass(Reverse(xs), 0, false, false, 0);
    ReverseReverse(SlideTowardEnd(xs).cells);
  }

  /** The rightward loop follows the merge rule read from the right-hand wall. */
  lemma TowardEndMeetsRule(xs: seq<int>)
    requires |xs| >= 1
    ensures SlideTowardEnd(xs).cells == Reverse(SlideSpec(Reverse(xs)))
    ensures SlideTowardEnd(xs).gain == Gain(NonZero(Reverse(xs)))
    ensures SlideTowardEnd(xs).changed <==> SlideTowardEnd(xs).cells != xs
  {
    TowardEndIsMirroredStart(xs);
    TowardStartMeetsRule(Reverse(xs));
    var out := SlideSpec(Reverse(xs));
    ReverseReverse(xs);
    if Reverse(out) == xs {
      ReverseReverse(out);
    }
  }

  // ---------------------------------------------------------------------------------------
  // Empty cells, reversal and lines the rule leaves alone
  // ---------------------------------------------------------------------------------------

  /** Every cell of a line is either empty or one of its tiles. */
  lemma {:induction false} NonZeroCount(xs: seq<int>)
    ensures multiset(xs)[0] + |NonZero(xs)| == |xs|
    decreases |xs|
  {
    if xs != [] {
      var n := |xs|;
      assert xs == xs[..n - 1] + [xs[n - 1]];
      NonZeroCount(xs[..n - 1]);
    }
  }

  lemma {:induction false} ZerosCount(n: nat)
    ensures multiset(Zeros(n))[0] == n
    decreases n
  {
    if n > 0 {
      assert Zeros(n) == Zeros(n - 1) + [0];
      ZerosCount(n - 1);
    }
  }

  lemma {:induction false} NoZeroCount(ms: seq<int>)
    requires forall i :: 0 <= i < |ms| ==> ms[i] != 0
    ensures multiset(ms)[0] == 0
    decreases |ms|
  {
    if ms != [] {
      assert ms == [ms[0]] + ms[1..];
      NoZeroCount(ms[1..]);
    }
  }

  /** After a move a line has exactly as many empty cells as it lost tiles to the merge rule,
      so never fewer empty cells than before. */
  lemma SlideSpecEmpties(xs: seq<int>)
    ensures multiset(SlideSpec(xs))[0] == |xs| - |Merge(NonZero(xs))|
    ensures multiset(SlideSpec(xs))[0] >= multiset(xs)[0]
  {
    var ms := Merge(NonZero(xs));
    var sp := SlideSpec(xs);
    assert sp == ms + Zeros(|xs| - |ms|);
    TilesThenZeros(ms, |xs| - |ms|);
    assert multiset(sp)[0] == |xs| - |ms|;
    NonZeroCount(xs);
  }

  /** Tiles followed by n empty cells hold exactly n empty cells. */
  lemma TilesThenZeros(ms: seq<int>, n: nat)
    requires forall i :: 0 <= i < |ms| ==> ms[i] != 0
    ensures multiset(ms + Zeros(n))[0] == n
  {
    assert multiset(ms + Zeros(n)) == multiset(ms) + multiset(Zeros(n));
    NoZeroCount(ms);
    ZerosCount(n);
  }

  lemma {:induction false} ReverseMultiset(xs: seq<int>)
    ensures multiset(Reverse(xs)) == multiset(xs)
    decreases |xs|
  {
    if xs != [] {
      assert Reverse(xs) == Reverse(xs[1..]) + [xs[0]];
      assert xs == [xs[0]] + xs[1..];
      ReverseMultiset(xs[1..]);
    }
  }

  /** No two neighbouring tiles are equal. */
  predicate NoPair(xs: seq<int>)
  {
    forall i :: 0 <= i < |xs| - 1 ==> xs[i] != xs[i + 1]
  }

  lemma {:induction false} MergeNoPair(ts: seq<int>)
    requires NoPair(ts)
    ensures Merge(ts) == ts
    decreases |ts|
  {
    if |ts| >= 1 {
      assert NoPair(ts[1..]);
      MergeNoPair(ts[1..]);
    }
  }

  /** A full line without equal neighbours is exactly what the rule leaves unchanged
      among full lines. */
  lemma FullLineFixed(xs: seq<int>)
    requires forall i :: 0 <= i < |xs| ==> xs[i] != 0
    ensures SlideSpec(xs) == xs <==> NoPair(xs)
  {
    if NoPair(xs) {
      MergeNoPair(xs);
      assert SlideSpec(xs) == xs + Zeros(0);
    } else {
      var i :| 0 <= i < |xs| - 1 && xs[i] == xs[i + 1];
      MergeShrinksAtPair(xs, i);
    }
  }

  /** Two equal neighbours in a tile sequence make the merge drop a tile. */
  lemma {:induction false} MergeShrinksAtPair(ts: seq<int>, i: nat)
    requires i < |ts| - 1 && ts[i] == ts[i + 1]
    ensures |Merge(ts)| < |ts|
    decreases |ts|
  {
    if |ts| >= 2 && ts[0] == ts[1] {
    } else if i > 0 {
      MergeShrinksAtPair(ts[1..], i - 1);
    }
  }

  lemma ReverseNoPair(xs: seq<int>)
    ensures NoPair(Reverse(xs)) <==> NoPair(xs)
  {
    var r := Reverse(xs);
    var n := |xs|;
    if !NoPair(xs) {
      var i :| 0 <= i < n - 1 && xs[i] == xs[i + 1];
      assert r[n - 2 - i] == r[n - 1 - i];
    }
    if !NoPair(r) {
      var i :| 0 <= i < n - 1 && r[i] == r[i + 1];
      assert xs[n - 2 - i] == xs[n - 1 - i];
    }
  }
}
