/** The rules of Snake/snake.c: the snake as the sequence of its segments' (row, column)
    positions, head first; the walls on rows 4 and 20 and columns 20 and 51; two pieces of
    food, eating one of which teleports the head onto the other; and the arrow keys that
    turn the snake. */
module SnakeGame {
  import opened Options

  datatype Dir = Still | Up | Down | Left | Right

  /** A (row, column) character position of the console. */
  type Pos = (int, int)

  /** The state the game loop reads and writes. */
  datatype Game = Game(
    body: seq<Pos>,      // the segments, head first
    dir: Dir,            // the movement
    teleporting: bool,   // a piece of food was eaten in the last frame
    dest: Pos,           // where the head reappears while teleporting
    food0: Pos,
    food1: Pos,
    score: int)

  /** A position strictly inside the walls, the field where the snake and the food live. */
  predicate InField(p: Pos)
  {
    5 <= p.0 <= 19 && 21 <= p.1 <= 50
  }

  // ---------------------------------------------------------------------------------------
  // initialize_snake, initialize_food (Snake/snake.c:382-428) and the score reset
  // ---------------------------------------------------------------------------------------

  /** The loop of initialize_snake from `column` on: each new segment becomes the head. */
  function BuildBody(column: int, body: seq<Pos>): (r: seq<Pos>)
    requires column <= 29
    ensures |r| == |body| + 29 - column
    decreases 29 - column
  {
    if column == 29 then body else BuildBody(column + 1, [(12, column)] + body)
  }

  /** A new game: the still snake, the two first pieces of food and a zero score.  The
      teleport destination is not read until a piece of food is eaten. */
  function InitializeGame(): (g: Game)
  {
    Game(BuildBody(24, []), Still, false, (0, 0), (9, 41), (15, 41), 0)
  }

  /** The initial snake lies on row 12 from column 28 (the head) back to column 24. */
  lemma InitializeGameState()
    ensures InitializeGame().body == [(12, 28), (12, 27), (12, 26), (12, 25), (12, 24)]
    ensures InitializeGame().dir == Still && !InitializeGame().teleporting && InitializeGame().score == 0
  {
  }

  // ---------------------------------------------------------------------------------------
  // locate_new_snake_head (Snake/snake.c:518-543)
  // ---------------------------------------------------------------------------------------

  /** The head position after one step of a moving snake. */
  function NextHead(head: Pos, d: Dir): (p: Pos)
    requires d != Still
  {
    match d
    case Up => (head.0 - 1, head.1)
    case Down => (head.0 + 1, head.1)
    case Left => (head.0, head.1 - 1)
    case Right => (head.0, head.1 + 1)
  }

  function Opposite(d: Dir): Dir
  {
    match d
    case Still => Still
    case Up => Down
    case Down => Up
    case Left => Right
    case Right => Left
  }

  /** A step moves the head to one of its four neighbours, and stepping back the opposite way
      returns it; distinct directions lead to distinct cells. */
  lemma NextHeadStep(head: Pos, d: Dir, e: Dir)
    requires d != Still && e != Still
    ensures var p := NextHead(head, d);
      (if p.0 < head.0 then head.0 - p.0 else p.0 - head.0) +
      (if p.1 < head.1 then head.1 - p.1 else p.1 - head.1) == 1
    ensures NextHead(NextHead(head, d), Opposite(d)) == head
    ensures NextHead(head, d) == NextHead(head, e) <==> d == e
  {
  }

  // ---------------------------------------------------------------------------------------
  // check_snake_state (Snake/snake.c:475-510)
  // ---------------------------------------------------------------------------------------

  /** The node loop of check_snake_state: it stops at the last node, so the tail is never
      compared. */
  function HitsBeforeTail(p: Pos, segs: seq<Pos>): (hit: bool)
    ensures |segs| >= 1 ==> (hit <==> p in segs[..|segs| - 1])
    ensures |segs| == 0 ==> !hit
  {
    if |segs| <= 1 then false
    else
      assert segs[..|segs| - 1] == [segs[0]] + segs[1..][..|segs| - 2];
      segs[0] == p || HitsBeforeTail(p, segs[1..])
  }

  /** Whether the snake is still alive in the next frame: a still or teleporting snake always
      is; a moving one dies on a wall or on any segment but its tail. */
  function CheckSnakeState(g: Game): (alive: bool)
    requires |g.body| >= 1
  {
    if g.dir != Still && !g.teleporting then
      var p := NextHead(g.body[0], g.dir);
      if p.0 == 4 || p.0 == 20 then false
      else if p.1 == 20 || p.1 == 51 then false
      else !HitsBeforeTail(p, g.body)
    else true
  }

  /** The death rule in full: a moving, not teleporting snake dies exactly when its next head
      lies on a wall or on a segment other than the tail. */
  lemma CheckSnakeStateMeaning(g: Game)
    requires |g.body| >= 1
    ensures !CheckSnakeState(g) <==>
      g.dir != Still && !g.teleporting &&
      (var p := NextHead(g.body[0], g.dir);
       p.0 == 4 || p.0 == 20 || p.1 == 20 || p.1 == 51 || p in g.body[..|g.body| - 1])
  {
  }

  /** A live step from inside the field stays inside the field. */
  lemma StepStaysInField(g: Game)
    requires |g.body| >= 1 && InField(g.body[0]) && g.dir != Still && !g.teleporting
    requires CheckSnakeState(g)
    ensures InField(NextHead(g.body[0], g.dir))
  {
  }

  // ---------------------------------------------------------------------------------------
  // update_snake_direction (Snake/snake.c:780-833)
  // ---------------------------------------------------------------------------------------

  const UpArrow: int := 72
  const DownArrow: int := 80
  const LeftArrow: int := 75
  const RightArrow: int := 77

  /** The new movement for the code of an arrow key, when the switch accepts it. */
  function Turn(d: Dir, code: int): (t: Option<Dir>)
  {
    if code == UpArrow then (if d == Still || d == Left || d == Right then Some(Up) else None)
    else if code == DownArrow then (if d == Still || d == Left || d == Right then Some(Down) else None)
    else if code == LeftArrow then (if d == Up || d == Down then Some(Left) else None)
    else if code == RightArrow then (if d == Still || d == Up || d == Down then Some(Right) else None)
    else None
  }

  /** An accepted key turns the snake a quarter turn, or starts it from standing in any
      direction but left; it never reverses the snake nor keeps it going the same way. */
  lemma TurnMeaning(d: Dir, code: int, e: Dir)
    ensures Turn(d, code) == Some(e) ==> e != Still && e != d && e != Opposite(d)
    ensures Turn(d, code) == Some(e) <==>
      e != Still && e != d && e != Opposite(d) && !(d == Still && e == Left) &&
      code == (match e case Up => UpArrow case Down => DownArrow case Left => LeftArrow case _ => RightArrow)
  {
  }

  /** A keystroke as the console delivers it: an extended key (prefix 0 or 224) with its
      code, or any other key. */
  datatype Key = Extended(code: int) | Plain

  /** The keystroke loop: keys are read until one is accepted or none is left. */
  function UpdateSnakeDirection(d: Dir, keys: seq<Key>): (e: Dir)
  {
    if |keys| == 0 then d
    else if keys[0].Extended? && Turn(d, keys[0].code).Some? then Turn(d, keys[0].code).value
    else UpdateSnakeDirection(d, keys[1..])
  }

  /** The movement is kept when no key is accepted, and otherwise is the first accepted key's. */
  lemma {:induction false} UpdateSnakeDirectionMeaning(d: Dir, keys: seq<Key>)
    ensures (forall i :: 0 <= i < |keys| ==> !keys[i].Extended? || Turn(d, keys[i].code).None?) ==>
      UpdateSnakeDirection(d, keys) == d
    ensures UpdateSnakeDirection(d, keys) != d ==>
      exists i :: 0 <= i < |keys| && keys[i].Extended? && Turn(d, keys[i].code) == Some(UpdateSnakeDirection(d, keys)) &&
        forall j :: 0 <= j < i ==> !keys[j].Extended? || Turn(d, keys[j].code).None?
  {
    if |keys| > 0 && !(keys[0].Extended? && Turn(d, keys[0].code).Some?) {
      UpdateSnakeDirectionMeaning(d, keys[1..]);
      if UpdateSnakeDirection(d, keys) != d {
        var i :| 0 <= i < |keys[1..]| && keys[1..][i].Extended? &&
          Turn(d, keys[1..][i].code) == Some(UpdateSnakeDirection(d, keys[1..])) &&
          forall j :: 0 <= j < i ==> !keys[1..][j].Extended? || Turn(d, keys[1..][j].code).None?;
        assert keys[i + 1] == keys[1..][i];
        assert forall j :: 1 <= j < i + 1 ==> keys[j] == keys[1..][j - 1];
      }
    }
  }

  // ---------------------------------------------------------------------------------------
  // insert_new_snake_head, delete_snake_tail, check_food_collision, update_current_score
  // (Snake/snake.c:600-626, 651-672, 734-772)
  // ---------------------------------------------------------------------------------------

  function InsertHead(body: seq<Pos>, p: Pos): (r: seq<Pos>)
    ensures |r| == |body| + 1 && r[0] == p && r[1..] == body
  {
    [p] + body
  }

  /** The loop walks to the last node and unlinks it from the one before, so the snake must
      have two segments. */
  function DeleteTail(body: seq<Pos>): (r: seq<Pos>)
    requires |body| >= 2
    ensures |r| == |body| - 1 && r == body[..|body| - 1] && r[0] == body[0]
  {
    body[..|body| - 1]
  }

  /** The head on a piece of food eats it and starts the teleport to the other piece. */
  function CheckFoodCollision(g: Game): (r: (bool, Game))
    requires |g.body| >= 1
  {
    if g.body[0] == g.food0 then (true, g.(teleporting := true, dest := g.food1))
    else if g.body[0] == g.food1 then (true, g.(teleporting := true, dest := g.food0))
    else (false, g)
  }

  /** Food is eaten exactly when the head is on it, and the destination is the other piece;
      nothing else changes. */
  lemma CheckFoodCollisionMeaning(g: Game)
    requires |g.body| >= 1
    ensures var (eaten, g') := CheckFoodCollision(g);
      (eaten <==> g.body[0] == g.food0 || g.body[0] == g.food1) &&
      (eaten ==> g'.teleporting && (g'.dest == g.food0 || g'.dest == g.food1) &&
                 (g.food0 != g.food1 ==> g'.dest != g.body[0])) &&
      (!eaten ==> g' == g) &&
      g'.body == g.body && g'.dir == g.dir && g'.food0 == g.food0 && g'.food1 == g.food1 && g'.score == g.score
  {
  }

  // ---------------------------------------------------------------------------------------
  // generate_food (Snake/snake.c:680-726)
  // ---------------------------------------------------------------------------------------

  /** The rejection loop of generate_food from `placed` pieces on, with the random draws as
      parameters: a draw (a, b) proposes row a % 15 + 5 and column b % 30 + 21, and is
      dropped when it lies on the snake or on a current piece of food.  None when the draws
      run out before both pieces are placed. */
  function GenerateFood(body: seq<Pos>, f0: Pos, f1: Pos, placed: nat, draws: seq<(int, int)>): (r: Option<(Pos, Pos)>)
    requires placed <= 2
    decreases |draws|
  {
    if placed == 2 then Some((f0, f1))
    else if |draws| == 0 then None
    else
      var p := (draws[0].0 % 15 + 5, draws[0].1 % 30 + 21);
      if p in body then GenerateFood(body, f0, f1, placed, draws[1..])
      else if p == f0 || p == f1 then GenerateFood(body, f0, f1, placed, draws[1..])
      else if placed == 0 then GenerateFood(body, p, f1, 1, draws[1..])
      else GenerateFood(body, f0, p, 2, draws[1..])
  }

  /** A piece of food placed by the loop: inside the field and off the snake. */
  predicate Fresh(p: Pos, body: seq<Pos>)
  {
    InField(p) && p !in body
  }

  /** Both new pieces lie inside the field, off the snake, and apart; the first differs from
      both old pieces and the second from the old second piece, the two the loop compares
      each draw with. */
  lemma {:induction false} GenerateFoodPlaces(body: seq<Pos>, f0: Pos, f1: Pos, placed: nat, draws: seq<(int, int)>)
    requires placed <= 2
    ensures var r := GenerateFood(body, f0, f1, placed, draws);
      r.Some? ==>
        (placed == 2 ==> r.value == (f0, f1)) &&
        (placed == 1 ==> r.value.0 == f0 && Fresh(r.value.1, body) && r.value.1 != f0 && r.value.1 != f1) &&
        (placed == 0 ==> Fresh(r.value.0, body) && r.value.0 != f0 && r.value.0 != f1 &&
                         Fresh(r.value.1, body) && r.value.1 != r.value.0 && r.value.1 != f1)
    decreases |draws|
  {
    if placed < 2 && |draws| > 0 {
      var p := (draws[0].0 % 15 + 5, draws[0].1 % 30 + 21);
      if p in body || p == f0 || p == f1 {
        GenerateFoodPlaces(body, f0, f1, placed, draws[1..]);
      } else if placed == 0 {
        GenerateFoodPlaces(body, p, f1, 1, draws[1..]);
      } else {
        GenerateFoodPlaces(body, f0, p, 2, draws[1..]);
      }
    }
  }

  // ---------------------------------------------------------------------------------------
  // refresh_game_interface (Snake/snake.c:552-592): the state change of one frame
  // ---------------------------------------------------------------------------------------

  /** One frame's move: a teleporting snake reappears at the destination, loses its tail and
      gets new food; a moving one advances its head and, unless it eats, loses its tail; a
      still one stays.  None when the food draws run out. */
  function Refresh(g: Game, draws: seq<(int, int)>): (r: Option<Game>)
    requires |g.body| >= 1
  {
    if g.teleporting then
      var body := DeleteTail(InsertHead(g.body, g.dest));
      match GenerateFood(body, g.food0, g.food1, 0, draws)
      case None => None
      case Some((f0, f1)) => Some(g.(body := body, teleporting := false, food0 := f0, food1 := f1))
    else if g.dir != Still then
      var moved := g.(body := InsertHead(g.body, NextHead(g.body[0], g.dir)));
      var (eaten, g') := CheckFoodCollision(moved);
      if eaten then Some(g'.(score := g'.score + 1))
      else Some(g'.(body := DeleteTail(g'.body)))
    else Some(g)
  }

  /** The effects of a frame: without food the snake moves with its length kept; with food it
      grows by one, scores one and teleports next; a teleport puts the head on the
      destination, drops the tail and ends the teleport; a still snake does not change. */
  lemma RefreshEffect(g: Game, draws: seq<(int, int)>)
    requires |g.body| >= 1
    ensures g.teleporting && Refresh(g, draws).Some? ==>
      var r := Refresh(g, draws).value;
      r.body == [g.dest] + g.body[..|g.body| - 1] && !r.teleporting && r.score == g.score && r.dir == g.dir
    ensures !g.teleporting && g.dir != Still ==>
      Refresh(g, draws).Some? &&
      var r := Refresh(g, draws).value;
      var p := NextHead(g.body[0], g.dir);
      r.dir == g.dir && r.food0 == g.food0 && r.food1 == g.food1 &&
      (if p == g.food0 || p == g.food1
       then r.body == [p] + g.body && r.score == g.score + 1 && r.teleporting &&
            r.dest == (if p == g.food0 then g.food1 else g.food0)
       else r.body == [p] + g.body[..|g.body| - 1] && r.score == g.score && !r.teleporting)
    ensures !g.teleporting && g.dir == Still ==> Refresh(g, draws) == Some(g)
  {
  }

  // ---------------------------------------------------------------------------------------
  // The game loop's frame (Snake/snake.c:295-306) and its invariant
  // ---------------------------------------------------------------------------------------

  /** One turn of the loop: a live snake is refreshed and then turned by the pending keys. */
  function Frame(g: Game, draws: seq<(int, int)>, keys: seq<Key>): (r: Option<Game>)
    requires |g.body| >= 1 && CheckSnakeState(g)
  {
    match Refresh(g, draws)
    case None => None
    case Some(g') => Some(g'.(dir := UpdateSnakeDirection(g'.dir, keys)))
  }

  ghost predicate Distinct(s: seq<Pos>)
  {
    forall i, j :: 0 <= i < j < |s| ==> s[i] != s[j]
  }

  /** What every frame keeps: the score counts the segments grown; the snake lies inside the
      field without crossing itself; the two pieces of food lie apart inside the field and,
      unless one was just eaten, off the snake; while teleporting the destination is a piece
      of food off the snake. */
  ghost predicate Valid(g: Game)
  {
    |g.body| >= 5 && g.score == |g.body| - 5 &&
    (forall i :: 0 <= i < |g.body| ==> InField(g.body[i])) && Distinct(g.body) &&
    InField(g.food0) && InField(g.food1) && g.food0 != g.food1 &&
    (!g.teleporting ==> g.food0 !in g.body && g.food1 !in g.body) &&
    (g.teleporting ==> (g.dest == g.food0 || g.dest == g.food1) && g.dest !in g.body)
  }

  lemma InitializeGameValid()
    ensures Valid(InitializeGame())
  {
    var g := InitializeGame();
    InitializeGameState();
    assert forall i :: 0 <= i < |g.body| ==> g.body[i] == (12, 28 - i);
  }

  lemma DistinctPrepend(p: Pos, s: seq<Pos>)
    requires Distinct(s) && p !in s
    ensures Distinct([p] + s)
  {
    forall i, j | 0 <= i < j < |[p] + s|
      ensures ([p] + s)[i] != ([p] + s)[j]
    {
      if i > 0 {
        assert ([p] + s)[i] == s[i - 1] && ([p] + s)[j] == s[j - 1];
      } else {
        assert ([p] + s)[j] == s[j - 1];
      }
    }
  }

  /** A teleport keeps the invariant. */
  lemma TeleportValid(g: Game, draws: seq<(int, int)>)
    requires Valid(g) && g.teleporting && Refresh(g, draws).Some?
    ensures Valid(Refresh(g, draws).value)
  {
    var kept := g.body[..|g.body| - 1];
    var body := DeleteTail(InsertHead(g.body, g.dest));
    assert body == [g.dest] + kept;
    assert g.dest !in kept;
    DistinctPrepend(g.dest, kept);
    GenerateFoodPlaces(body, g.food0, g.food1, 0, draws);
    var r := Refresh(g, draws).value;
    assert r.body == body;
    forall i | 0 <= i < |body|
      ensures InField(body[i])
    {
      if i > 0 {
        assert body[i] == g.body[i - 1];
      }
    }
  }

  /** A step without food keeps the invariant. */
  lemma MoveValid(g: Game)
    requires Valid(g) && !g.teleporting && g.dir != Still && CheckSnakeState(g)
    requires var p := NextHead(g.body[0], g.dir); p != g.food0 && p != g.food1
    ensures Valid(Refresh(g, []).value)
  {
    var p := NextHead(g.body[0], g.dir);
    var kept := g.body[..|g.body| - 1];
    StepStaysInField(g);
    RefreshEffect(g, []);
    var r := Refresh(g, []).value;
    assert r.body == [p] + kept;
    assert p !in kept;
    DistinctPrepend(p, kept);
    forall i | 0 <= i < |r.body|
      ensures InField(r.body[i])
    {
      if i > 0 {
        assert r.body[i] == g.body[i - 1];
      }
    }
    assert g.food0 !in kept && g.food1 !in kept;
  }

  /** A step onto food keeps the invariant: the food was off the snake, so the snake does not
      cross itself even though its tail stays. */
  lemma EatValid(g: Game)
    requires Valid(g) && !g.teleporting && g.dir != Still && CheckSnakeState(g)
    requires var p := NextHead(g.body[0], g.dir); p == g.food0 || p == g.food1
    ensures Valid(Refresh(g, []).value)
  {
    var p := NextHead(g.body[0], g.dir);
    StepStaysInField(g);
    RefreshEffect(g, []);
    var r := Refresh(g, []).value;
    assert r.body == [p] + g.body;
    DistinctPrepend(p, g.body);
    forall i | 0 <= i < |r.body|
      ensures InField(r.body[i])
    {
      if i > 0 {
        assert r.body[i] == g.body[i - 1];
      }
    }
  }

  /** Every frame of a live game keeps the invariant. */
  lemma FrameValid(g: Game, draws: seq<(int, int)>, keys: seq<Key>)
    requires Valid(g) && CheckSnakeState(g) && Frame(g, draws, keys).Some?
    ensures Valid(Frame(g, draws, keys).value)
  {
    if g.teleporting {
      TeleportValid(g, draws);
    } else if g.dir != Still {
      var p := NextHead(g.body[0], g.dir);
      assert Refresh(g, draws) == Refresh(g, []);
      if p == g.food0 || p == g.food1 {
        EatValid(g);
      } else {
        MoveValid(g);
      }
    }
  }
}
