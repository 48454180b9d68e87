/**
 * The snake game (mejs/Snake.js): a 54 by 40 grid of tiles, a snake that
 * moves one tile every eighth frame, food that makes it grow, and a high
 * score kept between games.
 *
 * The game's global state and the `snake` object become one class. The
 * tile map is a map from tiles to tile codes that the methods update; the
 * snake's body list and the list of tiles to redraw are sequences the
 * methods extend.
 * The random food positions become nondeterministic choices of an empty
 * tile, and the high-score cookie an optional stored integer.
 */
module Snake {
  import opened Wrappers

  /** Tiles across and down: the 810 by 600 canvas in 15-pixel blocks. */
  const Width := 54
  const Height := 40

  // Tile codes
  const Empty := 0
  const HeadTile := 1
  const BodyTile := 2
  const FoodTile := 3

  // Key codes
  const Space := 32
  const LeftArrow := 37
  const UpArrow := 38
  const RightArrow := 39
  const DownArrow := 40

  // Directions: 0 left, 1 up, 2 right, 3 down
  const Left := 0
  const Up := 1
  const Right := 2
  const Down := 3

  type Cell = (int, int)

  /** Where every game starts: the middle of the map. */
  const Start: Cell := (27, 20)

  datatype GameState = Play | Over

  predicate InBounds(c: Cell) {
    0 <= c.0 < Width && 0 <= c.1 < Height
  }

  predicate IsDirection(d: int) { 0 <= d < 4 }

  function Opposite(d: int): int { (d + 2) % 4 }

  function Max(a: int, b: int): int { if a >= b then a else b }
  function Min(a: int, b: int): int { if a <= b then a else b }

  // ---------------------------------------------------------------------
  // Moving the head
  // ---------------------------------------------------------------------

  /** One tile in direction `dir`, clamped to the map. */
  function Advance(c: Cell, dir: int): (r: Cell)
    ensures InBounds(c) ==> InBounds(r)
  {
    if dir == Left then (Max(0, c.0 - 1), c.1)
    else if dir == Up then (c.0, Max(0, c.1 - 1))
    else if dir == Right then (Min(Width - 1, c.0 + 1), c.1)
    else if dir == Down then (c.0, Min(Height - 1, c.1 + 1))
    else c
  }

  /** The offset of one step in each direction. */
  function Delta(dir: int): Cell
    requires IsDirection(dir)
  {
    [(-1, 0), (0, -1), (1, 0), (0, 1)][dir]
  }

  /** Whether the map edge blocks a step from `c` in direction `dir`. */
  predicate AtWall(c: Cell, dir: int) {
    || (dir == Left && c.0 == 0)
    || (dir == Up && c.1 == 0)
    || (dir == Right && c.0 == Width - 1)
    || (dir == Down && c.1 == Height - 1)
  }

  /**
   * Moving from a tile of the map either reaches the neighbouring tile in
   * that direction or, at the edge, stays on the same tile.
   */
  lemma AdvanceMeaning(c: Cell, dir: int)
    requires InBounds(c) && IsDirection(dir)
    ensures Advance(c, dir) == c <==> AtWall(c, dir)
    ensures !AtWall(c, dir) ==> Advance(c, dir) == (c.0 + Delta(dir).0, c.1 + Delta(dir).1)
  {
  }

  // ---------------------------------------------------------------------
  // Choosing the next direction
  // ---------------------------------------------------------------------

  /**
   * The arrow-key handling of `update`: the first pressed arrow, in the
   * order left, up, right, down, that does not point straight back.
   */
  function NextDirection(keys: set<int>, direction: int, next: int): (r: int)
    ensures r != next ==> IsDirection(r)
    ensures IsDirection(direction) && r != next ==> r != Opposite(direction)
  {
    if LeftArrow in keys && direction != Right then Left
    else if UpArrow in keys && direction != Down then Up
    else if RightArrow in keys && direction != Left then Right
    else if DownArrow in keys && direction != Up then Down
    else next
  }

  /** The snake is never turned straight back on itself, and an arrow pointing back is ignored. */
  lemma NeverReverses(keys: set<int>, direction: int, next: int)
    requires IsDirection(direction) && IsDirection(next) && next != Opposite(direction)
    ensures IsDirection(NextDirection(keys, direction, next))
    ensures NextDirection(keys, direction, next) != Opposite(direction)
  {
  }

  /** With no arrow pressed, the planned direction stays. */
  lemma NoKeyKeepsDirection(keys: set<int>, direction: int, next: int)
    requires LeftArrow !in keys && UpArrow !in keys && RightArrow !in keys && DownArrow !in keys
    ensures NextDirection(keys, direction, next) == next
  {
  }

  // ---------------------------------------------------------------------
  // The high score
  // ---------------------------------------------------------------------

  /** What `recordScore` returns and what the store holds afterwards. */
  datatype Recorded = Recorded(best: int, stored: Option<int>)

  /**
   * `recordScore`: the best score is the larger of the stored one and this
   * one, and afterwards the store holds it; this score is stored when
   * nothing was stored or it is at least the stored one.
   */
  function RecordScore(stored: Option<int>, score: int): (r: Recorded)
    ensures r.best >= score && (stored.Some? ==> r.best >= stored.value)
    ensures r.best == score || stored == Some(r.best)
    ensures r.stored == Some(r.best)
    ensures r.stored == Some(score) <==> stored.None? || stored.value <= score
  {
    match stored
    case None => Recorded(score, Some(score))
    case Some(highScore) =>
      if highScore > score then Recorded(highScore, stored)
      else Recorded(score, Some(score))
  }

  /** Recording every score of a series of games, one after the other. */
  function RecordAll(stored: Option<int>, scores: seq<int>): Option<int>
    decreases |scores|
  {
    if scores == [] then stored else RecordAll(RecordScore(stored, scores[0]).stored, scores[1..])
  }

  predicate IsMax(m: int, stored: Option<int>, scores: seq<int>) {
    && (stored.Some? ==> m >= stored.value)
    && (forall k :: 0 <= k < |scores| ==> m >= scores[k])
    && (stored == Some(m) || exists k :: 0 <= k < |scores| && scores[k] == m)
  }

  /** After a series of games the store holds the best score of all of them and of what it held before. */
  lemma {:induction false} RecordAllKeepsMaximum(stored: Option<int>, scores: seq<int>)
    requires stored.Some? || |scores| > 0
    ensures RecordAll(stored, scores).Some?
    ensures IsMax(RecordAll(stored, scores).value, stored, scores)
    decreases |scores|
  {
    if scores != [] {
      var next := RecordScore(stored, scores[0]).stored;
      RecordAllKeepsMaximum(next, scores[1..]);
      var m := RecordAll(stored, scores).value;
      assert m >= next.value;
      forall k | 0 <= k < |scores|
        ensures m >= scores[k]
      {
        if k > 0 {
          assert scores[k] == scores[1..][k - 1];
        }
      }
      if next == Some(m) {
        if RecordScore(stored, scores[0]).best != scores[0] {
          assert stored == Some(m);
        }
      } else {
        var k :| 0 <= k < |scores[1..]| && scores[1..][k] == m;
        assert scores[k + 1] == m;
      }
    }
  }

  // ---------------------------------------------------------------------
  // What the tile map should show
  // ---------------------------------------------------------------------

  /** The map `t` has exactly the tiles of the board. */
  ghost predicate Covers(t: map<Cell, int>) {
    forall c :: c in t <==> InBounds(c)
  }

  /** Every tile of `m` is empty. */
  ghost predicate IsBlank(m: map<Cell, int>) {
    Covers(m) && forall c :: c in m ==> m[c] == Empty
  }

  /** There is an empty map: built tile by tile, as `init`'s nested loops do. */
  lemma BlankExists()
    ensures exists m :: IsBlank(m)
  {
    var m: map<Cell, int> := map[];
    for i := 0 to Width
      invariant forall c :: c in m <==> 0 <= c.0 < i && 0 <= c.1 < Height
      invariant forall c :: c in m ==> m[c] == Empty
    {
      for j := 0 to Height
        invariant forall c :: c in m <==> (0 <= c.0 < i && 0 <= c.1 < Height) || (c.0 == i && 0 <= c.1 < j)
        invariant forall c :: c in m ==> m[c] == Empty
      {
        m := m[(i, j) := Empty];
      }
    }
    assert IsBlank(m);
  }

  /** There is only one empty map. */
  lemma BlankUnique(a: map<Cell, int>, b: map<Cell, int>)
    requires IsBlank(a) && IsBlank(b)
    ensures a == b
  {
  }

  /** The map with every tile empty. */
  ghost function BlankBoard(): (r: map<Cell, int>)
    ensures IsBlank(r)
  {
    BlankExists();
    var m :| IsBlank(m); m
  }

  /** The snake's tiles other than its head (the last tile of the list). */
  function BodyOf(list: seq<Cell>): seq<Cell>
    requires |list| >= 1
  {
    list[..|list| - 1]
  }

  /** The code a tile holds when the snake is `list` with head `head` and food lies on `foods`. */
  function Code(list: seq<Cell>, head: Cell, foods: set<Cell>, c: Cell): int
    requires |list| >= 1
  {
    if c in BodyOf(list) then BodyTile
    else if c == head then HeadTile
    else if c in foods then FoodTile
    else Empty
  }

  predicate Distinct(list: seq<Cell>) {
    forall i, j :: 0 <= i < j < |list| ==> list[i] != list[j]
  }

  /**
   * The map `t` shows the snake `list`, whose last tile is its head, and
   * the food on `foods`: the snake does not overlap itself, food lies on
   * the map and off the snake, and every tile holds its code.
   */
  ghost predicate Pictures(t: map<Cell, int>, list: seq<Cell>, foods: set<Cell>) {
    && |list| >= 1
    && Distinct(list)
    && (forall k :: 0 <= k < |list| ==> InBounds(list[k]))
    && (forall c :: c in foods ==> InBounds(c) && c !in list)
    && Covers(t)
    && forall c :: c in t ==> t[c] == Code(list, list[|list| - 1], foods, c)
  }

  /** The snake's tiles after its head moves to `h1`, keeping the tail when it grows. */
  function Moved(list: seq<Cell>, h1: Cell, grew: bool): (r: seq<Cell>)
    requires |list| >= 1
    ensures |r| == |list| + (if grew then 1 else 0) && r[|r| - 1] == h1
    ensures BodyOf(r) == if grew then list else list[1..]
  {
    if grew then list + [h1] else list[1..] + [h1]
  }

  /**
   * The map after the head lands safely on `h1` (its old tile already
   * marked as body): the new tile shows the head and, unless the snake
   * grew, its tail tile is cleared.
   */
  function MovedTiles(marked: map<Cell, int>, h1: Cell, tail: Cell, grew: bool): map<Cell, int> {
    var t1 := marked[h1 := HeadTile];
    if grew then t1 else t1[tail := Empty]
  }

  /**
   * On a consistent map, the tile the head steps to holds a body piece
   * (once the old head has become one) exactly when it is part of the snake.
   */
  lemma SelfCollision(t: map<Cell, int>, list: seq<Cell>, foods: set<Cell>, h1: Cell)
    requires Pictures(t, list, foods) && InBounds(h1)
    ensures h1 in t
    ensures t[list[|list| - 1] := BodyTile][h1] == BodyTile <==> h1 in list
  {
    assert list == BodyOf(list) + [list[|list| - 1]];
  }

  /** Off the snake, the tile shows food exactly when food lies there, and eating it removes one food. */
  lemma FoodEaten(t: map<Cell, int>, list: seq<Cell>, foods: set<Cell>, h1: Cell)
    requires Pictures(t, list, foods) && InBounds(h1) && h1 !in list
    ensures t[list[|list| - 1] := BodyTile][h1] == FoodTile <==> h1 in foods
    ensures |foods - {h1}| == |foods| - (if h1 in foods then 1 else 0)
  {
    assert list == BodyOf(list) + [list[|list| - 1]];
  }

  /** Moving onto a tile off the snake keeps it free of overlaps and off the food. */
  lemma MovedFacts(list: seq<Cell>, foods: set<Cell>, h1: Cell, grew: bool)
    requires |list| >= 1 && Distinct(list) && h1 !in list
    requires forall f :: f in foods ==> f !in list
    ensures Distinct(Moved(list, h1, grew))
    ensures forall f :: f in foods - {h1} ==> f !in Moved(list, h1, grew)
  {
    var r := Moved(list, h1, grew);
    assert r == BodyOf(r) + [h1];
    assert forall k :: 0 <= k < |BodyOf(r)| ==> BodyOf(r)[k] in list;
    forall i, j | 0 <= i < j < |r|
      ensures r[i] != r[j]
    {
      if j == |r| - 1 {
        assert r[i] in BodyOf(r);
      } else if !grew {
        assert r[i] == list[i + 1] && r[j] == list[j + 1];
      }
    }
  }

  /** The code of one tile after a move that grows the snake onto a tile off it. */
  lemma GrownCode(list: seq<Cell>, foods: set<Cell>, h1: Cell, c: Cell)
    requires |list| >= 1 && h1 !in list
    ensures var h0 := list[|list| - 1];
      Code(Moved(list, h1, true), h1, foods - {h1}, c) ==
        if c == h1 then HeadTile
        else if c == h0 then BodyTile
        else Code(list, h0, foods, c)
  {
    assert list == BodyOf(list) + [list[|list| - 1]];
  }

  /** The code of one tile after a move that keeps the snake's length, onto a tile off it. */
  lemma ShiftedCode(list: seq<Cell>, foods: set<Cell>, h1: Cell, c: Cell)
    requires |list| >= 1 && Distinct(list) && h1 !in list
    requires forall f :: f in foods ==> f !in list
    ensures var h0 := list[|list| - 1];
      Code(Moved(list, h1, false), h1, foods - {h1}, c) ==
        if c == list[0] then Empty
        else if c == h1 then HeadTile
        else if c == h0 then BodyTile
        else Code(list, h0, foods, c)
  {
    var h0 := list[|list| - 1];
    assert list == BodyOf(list) + [h0];
    assert list == [list[0]] + list[1..];
    if c == list[0] {
      forall k | 0 <= k < |list[1..]|
        ensures list[1..][k] != c
      {
        assert list[1..][k] == list[k + 1];
      }
    } else if c != h1 && c != h0 {
      assert c in list[1..] <==> c in BodyOf(list);
    } else if c == h0 && c != h1 {
      assert list[1..] == list[1..|list| - 1] + [h0];
    }
  }

  /** The code of one tile after a safe move, in terms of its code before. */
  lemma SafeMoveCode(list: seq<Cell>, foods: set<Cell>, h1: Cell, grew: bool, c: Cell)
    requires |list| >= 1 && Distinct(list) && h1 !in list
    requires forall f :: f in foods ==> f !in list
    ensures var h0 := list[|list| - 1];
      Code(Moved(list, h1, grew), h1, foods - {h1}, c) ==
        if !grew && c == list[0] then Empty
        else if c == h1 then HeadTile
        else if c == h0 then BodyTile
        else Code(list, h0, foods, c)
  {
    if grew {
      GrownCode(list, foods, h1, c);
    } else {
      ShiftedCode(list, foods, h1, c);
    }
  }

  /** After a move onto a tile of the map, every tile of the snake is on the map. */
  lemma MovedInBounds(list: seq<Cell>, h1: Cell, grew: bool)
    requires |list| >= 1 && (forall k :: 0 <= k < |list| ==> InBounds(list[k])) && InBounds(h1)
    ensures forall k :: 0 <= k < |Moved(list, h1, grew)| ==> InBounds(Moved(list, h1, grew)[k])
  {
    var r := Moved(list, h1, grew);
    assert r == BodyOf(r) + [h1];
    assert forall k :: 0 <= k < |BodyOf(r)| ==> BodyOf(r)[k] in list;
  }

  /** The tile writes of a move keep every tile of the map, and only those. */
  lemma MovedCovers(t: map<Cell, int>, h0: Cell, h1: Cell, tail: Cell, grew: bool)
    requires Covers(t) && InBounds(h0) && InBounds(h1) && InBounds(tail)
    ensures Covers(MovedTiles(t[h0 := BodyTile], h1, tail, grew))
  {
  }

  /** After a safe move every tile holds its new code. */
  lemma MovedCodes(t: map<Cell, int>, list: seq<Cell>, foods: set<Cell>, h1: Cell, grew: bool,
                   t2: map<Cell, int>, r: seq<Cell>)
    requires |list| >= 1 && Distinct(list) && h1 !in list
    requires forall f :: f in foods ==> f !in list
    requires forall c :: c in t ==> t[c] == Code(list, list[|list| - 1], foods, c)
    requires t2 == MovedTiles(t[list[|list| - 1] := BodyTile], h1, list[0], grew)
    requires r == Moved(list, h1, grew)
    ensures forall c :: c in t2 ==> t2[c] == Code(r, r[|r| - 1], foods - {h1}, c)
  {
    forall c | c in t2
      ensures t2[c] == Code(Moved(list, h1, grew), h1, foods - {h1}, c)
    {
      SafeMoveCode(list, foods, h1, grew, c);
      if c in t {
        assert t[c] == Code(list, list[|list| - 1], foods, c);
      }
    }
  }

  /**
   * A safe move keeps the map consistent: the snake moved to `h1` is shown
   * on the map with its tiles updated as `snake.move` updates them, and the
   * food eaten there is gone.
   */
  lemma SafeMoveKeeps(t: map<Cell, int>, list: seq<Cell>, foods: set<Cell>, h1: Cell, grew: bool)
    requires Pictures(t, list, foods) && InBounds(h1) && h1 !in list
    ensures Pictures(MovedTiles(t[list[|list| - 1] := BodyTile], h1, list[0], grew), Moved(list, h1, grew), foods - {h1})
  {
    MovedInBounds(list, h1, grew);
    MovedCovers(t, list[|list| - 1], h1, list[0], grew);
    MovedFacts(list, foods, h1, grew);
    var t2 := MovedTiles(t[list[|list| - 1] := BodyTile], h1, list[0], grew);
    var r := Moved(list, h1, grew);
    MovedCodes(t, list, foods, h1, grew, t2, r);
    assert Pictures(t2, r, foods - {h1});
  }

  /** Everything a safe move from a consistent map needs, in one place. */
  lemma SafeStep(t: map<Cell, int>, list: seq<Cell>, foods: set<Cell>, h1: Cell)
    requires Pictures(t, list, foods) && InBounds(h1) && h1 !in list
    ensures h1 in t && t[list[|list| - 1] := BodyTile][h1] != BodyTile
    ensures t[list[|list| - 1] := BodyTile][h1] == FoodTile <==> h1 in foods
    ensures |foods - {h1}| == |foods| - (if h1 in foods then 1 else 0)
    ensures Pictures(MovedTiles(t[list[|list| - 1] := BodyTile], h1, list[0], true), Moved(list, h1, true), foods - {h1})
    ensures Pictures(MovedTiles(t[list[|list| - 1] := BodyTile], h1, list[0], false), Moved(list, h1, false), foods - {h1})
  {
    SelfCollision(t, list, foods, h1);
    FoodEaten(t, list, foods, h1);
    SafeMoveKeeps(t, list, foods, h1, true);
    SafeMoveKeeps(t, list, foods, h1, false);
  }

  /** Putting food on an empty tile of a consistent map keeps it consistent. */
  lemma FoodPlacedKeeps(t: map<Cell, int>, list: seq<Cell>, foods: set<Cell>, c: Cell)
    requires Pictures(t, list, foods) && c in t && t[c] == Empty
    ensures c !in foods && c !in list
    ensures Pictures(t[c := FoodTile], list, foods + {c})
  {
    assert list == BodyOf(list) + [list[|list| - 1]];
  }

  /** On a consistent map with food on it, some tile shows the food. */
  lemma FoodVisible(t: map<Cell, int>, list: seq<Cell>, foods: set<Cell>)
    requires Pictures(t, list, foods) && |foods| >= 1
    ensures exists c :: c in t && t[c] == FoodTile
  {
    var f :| f in foods;
    assert list == BodyOf(list) + [list[|list| - 1]];
    assert f in t && t[f] == FoodTile;
  }


  // ---------------------------------------------------------------------
  // The game state as a value, and what each step does to it
  // ---------------------------------------------------------------------

  /**
   * Everything the game keeps: the tile map, the snake's list of tiles (its
   * head last), the tiles waiting to be redrawn, the head, the snake's
   * counters and directions, the frame and food counters, the tiles that
   * hold food, the game state and the stored high score.
   */
  datatype Snapshot = Snapshot(
    picture: map<Cell, int>,
    list: seq<Cell>,
    updates: seq<Cell>,
    head: Cell,
    grow: int,
    length: int,
    direction: int,
    next: int,
    ticks: int,
    foodCount: int,
    foods: set<Cell>,
    state: GameState,
    highScore: Option<int>)

  /** What holds in every state, playing or not; `length` is the size of the list. */
  ghost predicate ShapeOf(s: Snapshot) {
    && Covers(s.picture)
    && InBounds(s.head)
    && |s.list| >= 1 && s.length == |s.list|
    && (forall k :: 0 <= k < |s.list| ==> InBounds(s.list[k]))
    && s.grow >= 0
    && IsDirection(s.direction) && IsDirection(s.next)
    && s.foodCount <= 3
  }

  /**
   * What holds while playing: the head is the last tile of the list, the
   * map shows the snake and the food, `foodCount` counts the food, and the
   * planned direction does not point back.
   */
  ghost predicate ConsistentOf(s: Snapshot) {
    && ShapeOf(s)
    && s.list[|s.list| - 1] == s.head
    && Pictures(s.picture, s.list, s.foods)
    && s.foodCount == |s.foods|
    && s.next != Opposite(s.direction)
  }

  ghost predicate ValidOf(s: Snapshot) {
    ShapeOf(s) && (s.state == Play ==> ConsistentOf(s))
  }

  /** The first half of `snake.move`: turn, mark the old head's tile as body, step. */
  function Turned(s: Snapshot): Snapshot {
    s.(direction := s.next,
       picture := s.picture[s.head := BodyTile],
       updates := s.updates + [s.head],
       head := Advance(s.head, s.next))
  }

  predicate Collides(s: Snapshot) {
    s.head in s.picture && s.picture[s.head] == BodyTile
  }

  predicate Eats(s: Snapshot) {
    s.head in s.picture && s.picture[s.head] == FoodTile
  }

  /**
   * The second half of `snake.move` when the head's new tile holds no body
   * piece: eat any food there (three more to grow), show the head, and grow
   * by one or drop the tail tile.
   */
  function Settled(s: Snapshot): Snapshot
    requires |s.list| >= 1
  {
    var ate := Eats(s);
    SettledWith(s, ate, s.grow + (if ate then 3 else 0) > 0)
  }

  /** `Settled`, once it is known whether the snake ate and whether it grew. */
  function SettledWith(s: Snapshot, ate: bool, grew: bool): Snapshot
    requires |s.list| >= 1
  {
    s.(picture := MovedTiles(s.picture, s.head, s.list[0], grew),
       list := Moved(s.list, s.head, grew),
       updates := s.updates + [s.head] + (if grew then [] else [s.list[0]]),
       grow := s.grow + (if ate then 3 else 0) - (if grew then 1 else 0),
       length := s.length + (if grew then 1 else 0),
       foodCount := s.foodCount - (if ate then 1 else 0),
       foods := s.foods - {s.head})
  }

  /** `gameOver`: the game ends and the score is recorded. */
  function Ended(s: Snapshot): Snapshot {
    s.(state := Over, highScore := RecordScore(s.highScore, s.length).stored)
  }

  /** `snake.move`. */
  function StepMove(s: Snapshot): Snapshot
    requires |s.list| >= 1
  {
    var t := Turned(s);
    if Collides(t) then Ended(t) else Settled(t)
  }

  /** The part of `update` before the food: take the keys, count the frame, move on every eighth. */
  function Ticked(s: Snapshot, keys: set<int>): Snapshot
    requires |s.list| >= 1
  {
    MaybeMoved(Steered(s, keys))
  }

  /** The arrow keys taken and the frame counted. */
  function Steered(s: Snapshot, keys: set<int>): Snapshot {
    s.(next := NextDirection(keys, s.direction, s.next), ticks := s.ticks + 1)
  }

  /** The snake moves on every eighth frame. */
  function MaybeMoved(s: Snapshot): Snapshot
    requires |s.list| >= 1
  {
    if s.ticks % 8 == 0 then StepMove(s) else s
  }

  /** `update` adds food when there is none, and every thousandth frame while there are fewer than three. */
  predicate FoodDue(s: Snapshot) {
    s.foodCount == 0 || (s.ticks % 1000 == 0 && s.foodCount < 3)
  }

  predicate HasEmpty(s: Snapshot) {
    exists c :: c in s.picture && s.picture[c] == Empty
  }

  /** Food put on tile `c`. */
  function WithFood(s: Snapshot, c: Cell): Snapshot {
    s.(picture := s.picture[c := FoodTile],
       updates := s.updates + [c],
       foodCount := s.foodCount + 1,
       foods := s.foods + {c})
  }

  /** A new game with the first food on `food`, as the corrected `init` leaves it. */
  ghost function Started(highScore: Option<int>, food: Cell): Snapshot {
    Snapshot(BlankBoard()[Start := HeadTile][food := FoodTile], [Start], [food], Start,
             3, 1, Left, Left, 0, 1, {food}, Play, highScore)
  }

  /** A new game as the program's `init` leaves it: the head's tile is not marked. */
  ghost function StartedAsWritten(highScore: Option<int>, food: Cell): Snapshot {
    Snapshot(BlankBoard()[food := FoodTile], [Start], [food], Start,
             3, 1, Left, Left, 0, 1, {food}, Play, highScore)
  }

  // ---------------------------------------------------------------------
  // What the steps keep
  // ---------------------------------------------------------------------

  /** A move keeps the head on the map and the length equal to the size of the list. */
  lemma MoveKeepsShape(s: Snapshot)
    requires ShapeOf(s)
    ensures ShapeOf(StepMove(s))
  {
    var t := Turned(s);
    assert Covers(t.picture);
    if !Collides(t) {
      var r := Settled(t);
      assert InBounds(s.list[0]);
      assert Covers(r.picture);
      forall k | 0 <= k < |r.list|
        ensures InBounds(r.list[k])
      {
        if k < |r.list| - 1 {
          assert r.list[k] in BodyOf(r.list);
        }
      }
    }
  }

  /** A step blocked by the edge of the map lands on the old head's tile, now a body piece, and ends the game. */
  lemma WallEndsGame(s: Snapshot)
    requires ShapeOf(s) && AtWall(s.head, s.next)
    ensures StepMove(s).state == Over
    ensures StepMove(s).list == s.list && StepMove(s).length == s.length && StepMove(s).grow == s.grow
  {
    AdvanceMeaning(s.head, s.next);
  }

  /** While playing on a consistent state, the move ends the game exactly when the head steps onto the snake. */
  lemma MoveEndsGame(s: Snapshot)
    requires ConsistentOf(s) && s.state == Play
    ensures StepMove(s).state == Over <==> Advance(s.head, s.next) in s.list
  {
    SelfCollision(s.picture, s.list, s.foods, Advance(s.head, s.next));
  }

  /** A move onto a tile off the snake keeps the state consistent. */
  lemma MoveKeepsConsistent(s: Snapshot)
    requires ConsistentOf(s) && Advance(s.head, s.next) !in s.list
    ensures StepMove(s).state == s.state && ConsistentOf(StepMove(s))
  {
    var h1 := Advance(s.head, s.next);
    var t := Turned(s);
    SafeStep(s.picture, s.list, s.foods, h1);
    assert !Collides(t);
    var r := Settled(t);
    assert StepMove(s) == r;
    MoveKeepsShape(s);
    var grew := s.grow + (if Eats(t) then 3 else 0) > 0;
    assert r.picture == MovedTiles(s.picture[s.list[|s.list| - 1] := BodyTile], h1, s.list[0], grew);
    assert r.list == Moved(s.list, h1, grew);
    assert Pictures(r.picture, r.list, r.foods);
    assert r.foodCount == |r.foods|;
    assert r.next != Opposite(r.direction);
  }

  /** Eating: one food fewer, one tile longer and two more to grow, and the food is gone from the tile. */
  lemma EatingGrows(s: Snapshot)
    requires ConsistentOf(s)
    requires Advance(s.head, s.next) !in s.list && Advance(s.head, s.next) in s.foods
    ensures var r := StepMove(s);
      && r.foodCount == s.foodCount - 1 && r.length == s.length + 1 && r.grow == s.grow + 2
      && Advance(s.head, s.next) !in r.foods
  {
    var h1 := Advance(s.head, s.next);
    SelfCollision(s.picture, s.list, s.foods, h1);
    FoodEaten(s.picture, s.list, s.foods, h1);
  }

  /** Not growing, the snake keeps its length and its old tail tile is cleared and leaves the list. */
  lemma TailFollows(s: Snapshot)
    requires ConsistentOf(s) && s.grow == 0
    requires Advance(s.head, s.next) !in s.list && Advance(s.head, s.next) !in s.foods
    ensures var r := StepMove(s);
      && r.length == s.length && r.list == s.list[1..] + [Advance(s.head, s.next)]
      && r.picture[s.list[0]] == Empty && s.list[0] !in r.list
  {
    var h1 := Advance(s.head, s.next);
    SelfCollision(s.picture, s.list, s.foods, h1);
    FoodEaten(s.picture, s.list, s.foods, h1);
    var r := StepMove(s);
    assert r.list == s.list[1..] + [h1];
    forall k | 0 <= k < |s.list| - 1
      ensures s.list[1..][k] != s.list[0]
    {
      assert s.list[1..][k] == s.list[k + 1];
    }
  }

  /** Taking the keys keeps a playing state consistent. */
  lemma SteerKeeps(s: Snapshot, keys: set<int>)
    requires ConsistentOf(s)
    ensures ConsistentOf(Steered(s, keys))
  {
    NeverReverses(keys, s.direction, s.next);
  }

  /** A move from a consistent playing state leaves a valid state. */
  lemma MoveKeepsValid(s: Snapshot)
    requires ConsistentOf(s) && s.state == Play
    ensures ValidOf(StepMove(s))
  {
    MoveKeepsShape(s);
    MoveEndsGame(s);
    if Advance(s.head, s.next) !in s.list {
      MoveKeepsConsistent(s);
    }
  }

  /** A frame keeps a playing state valid. */
  lemma TickKeeps(s: Snapshot, keys: set<int>)
    requires ValidOf(s) && s.state == Play
    ensures ValidOf(Ticked(s, keys))
  {
    var s0 := Steered(s, keys);
    SteerKeeps(s, keys);
    if s0.ticks % 8 == 0 {
      MoveKeepsValid(s0);
    }
  }

  /** A frame counts one tick, and the head moves only on frames divisible by eight. */
  lemma TickMovesEveryEighth(s: Snapshot, keys: set<int>)
    requires |s.list| >= 1
    ensures Ticked(s, keys).ticks == s.ticks + 1
    ensures Ticked(s, keys).head != s.head ==> (s.ticks + 1) % 8 == 0
  {
  }

  /** Food on an empty tile, while fewer than three, keeps the state valid. */
  lemma FoodKeeps(s: Snapshot, c: Cell)
    requires ValidOf(s) && c in s.picture && s.picture[c] == Empty && s.foodCount < 3
    ensures ValidOf(WithFood(s, c))
  {
    if s.state == Play {
      FoodPlacedKeeps(s.picture, s.list, s.foods, c);
    }
  }

  /** The corrected `init` leaves a consistent state whose map shows the first food. */
  lemma StartedConsistent(highScore: Option<int>, food: Cell)
    requires InBounds(food) && food != Start
    ensures ConsistentOf(Started(highScore, food))
    ensures exists c :: c in Started(highScore, food).picture && Started(highScore, food).picture[c] == FoodTile
  {
    var s := Started(highScore, food);
    assert BodyOf([Start]) == [];
    assert Pictures(s.picture, s.list, s.foods);
    FoodVisible(s.picture, s.list, s.foods);
  }

  /**
   * The program's `init` can put the first food on the snake's head. The
   * first move turns that tile into a body piece: the map then shows no
   * food while `foodCount` still counts one, so `update` adds none until
   * frame 1000.
   */
  lemma HiddenFood(highScore: Option<int>)
    ensures var r := StepMove(StartedAsWritten(highScore, Start));
      && r.state == Play && r.foodCount == 1
      && forall c :: c in r.picture ==> r.picture[c] != FoodTile
  {
    var s := StartedAsWritten(highScore, Start);
    var t := Turned(s);
    var left := (Start.0 - 1, Start.1);
    assert t.head == left;
    assert t.picture == BlankBoard()[Start := FoodTile][Start := BodyTile];
    assert t.picture[left] == Empty;
    var r := StepMove(s);
    assert r.picture == t.picture[left := HeadTile];
    forall c | c in r.picture
      ensures r.picture[c] != FoodTile
    {
      if c != left && c != Start {
        assert r.picture[c] == BlankBoard()[c];
      }
    }
  }

  // ---------------------------------------------------------------------
  // The game
  // ---------------------------------------------------------------------

  class SnakeGame {
    /** The tile map: 0 empty, 1 head, 2 body, 3 food. */
    var tiles: map<Cell, int>
    var snakeList: seq<Cell>
    var toUpdate: seq<Cell>
    var x: int
    var y: int
    var grow: int
    var length: int
    var direction: int
    var nextDirection: int
    var ticks: int
    var foodCount: int
    var state: GameState
    /** The high-score cookie: `None` while it does not exist. */
    var highScore: Option<int>
    /** The tiles that hold food. */
    ghost var foods: set<Cell>

    /** The game's state as a value. */
    ghost function View(): Snapshot
      reads this
    {
      Snapshot(tiles, snakeList, toUpdate, (x, y), grow, length,
               direction, nextDirection, ticks, foodCount, foods, state, highScore)
    }

    ghost predicate Valid()
      reads this
    {
      ValidOf(View())
    }

    /** Page load: `main` starts a game; `storedHighScore` is the cookie found. */
    constructor (storedHighScore: Option<int>)
      ensures Valid() && |toUpdate| == 1
      ensures View() == Started(storedHighScore, toUpdate[0])
    {
      highScore := storedHighScore;
      new;
      Init();
    }

    /** The nested loops of `init`: a new map with every tile set empty. */
    method ClearTiles()
      modifies this`tiles
      ensures tiles == BlankBoard()
    {
      tiles := map[];
      for i := 0 to Width
        invariant forall c :: c in tiles <==> 0 <= c.0 < i && 0 <= c.1 < Height
        invariant forall c :: c in tiles ==> tiles[c] == Empty
      {
        for j := 0 to Height
          invariant forall c :: c in tiles <==> (0 <= c.0 < i && 0 <= c.1 < Height) || (c.0 == i && 0 <= c.1 < j)
          invariant forall c :: c in tiles ==> tiles[c] == Empty
        {
          tiles := tiles[(i, j) := Empty];
        }
      }
      BlankUnique(tiles, BlankBoard());
    }

    /** `snake.init` and the counters and lists `init` resets. */
    method ResetSnake()
      modifies this`state, this`ticks, this`foodCount, this`length, this`grow,
        this`nextDirection, this`direction, this`x, this`y, this`snakeList, this`toUpdate
      ensures state == Play && ticks == 0 && foodCount == 0
      ensures length == 1 && grow == 3 && nextDirection == Left && direction == Left
      ensures (x, y) == Start && snakeList == [Start] && toUpdate == []
    {
      state := Play;
      ticks := 0;
      foodCount := 0;
      length := 1;
      grow := 3;
      nextDirection := Left;
      direction := Left;
      x, y := Start.0, Start.1;
      snakeList := [(x, y)];
      toUpdate := [];
    }

    /**
     * What `init` does once the first food's tile is chosen: reset the
     * snake, the counters and the lists, create the map and put the food
     * on it. `markHead` says whether the head's tile is marked, which the
     * program's `init` does not do.
     */
    method StartGame(food: Cell, markHead: bool)
      requires InBounds(food)
      modifies this
      ensures View() == if markHead then Started(old(highScore), food) else StartedAsWritten(old(highScore), food)
    {
      ResetSnake();
      ClearTiles();
      if markHead {
        tiles := tiles[Start := HeadTile];
      }
      tiles := tiles[food := FoodTile];
      toUpdate := toUpdate + [food];
      foodCount := foodCount + 1;
      foods := {food};
    }

    /**
     * `init`, with the head's tile marked and the first food put on an
     * empty tile (see the findings in README.md for the program's `init`).
     */
    method Init()
      modifies this
      ensures Valid()
      ensures |toUpdate| == 1 && InBounds(toUpdate[0]) && toUpdate[0] != Start
      ensures View() == Started(old(highScore), toUpdate[0])
    {
      var food: Cell :| InBounds(food) && food != Start by {
        assert InBounds((0, 0));
      }
      StartGame(food, true);
      StartedConsistent(highScore, food);
    }

    /**
     * `init` as the source writes it: the head's tile is left empty, and
     * the first food goes to (`foodx`, `foody`), which may be the head's tile.
     */
    method InitAsWritten(foodx: int, foody: int)
      requires InBounds((foodx, foody))
      modifies this
      ensures View() == StartedAsWritten(old(highScore), (foodx, foody))
    {
      StartGame((foodx, foody), false);
    }

    /** `gameOver`: record the score; the best score is returned for the game-over screen. */
    method GameOver() returns (bestScore: int)
      modifies this`state, this`highScore
      ensures View() == Ended(old(View()))
      ensures bestScore == RecordScore(old(highScore), length).best
    {
      var recorded := RecordScore(highScore, length);
      highScore := recorded.stored;
      bestScore := recorded.best;
      state := Over;
    }

    /** The first half of `snake.move`: turn, mark the head's tile as a body piece, step. */
    method StepHead()
      modifies this`direction, this`tiles, this`toUpdate, this`x, this`y
      ensures View() == Turned(old(View()))
    {
      direction := nextDirection;
      tiles := tiles[(x, y) := BodyTile];
      toUpdate := toUpdate + [(x, y)];
      if direction == Left {
        x := Max(0, x - 1);
      } else if direction == Up {
        y := Max(0, y - 1);
      } else if direction == Right {
        x := Min(Width - 1, x + 1);
      } else if direction == Down {
        y := Min(Height - 1, y + 1);
      }
    }

    /** Eating whatever food lies on the head's tile: one food fewer and three more tiles to grow. */
    method Eat() returns (ate: bool)
      requires (x, y) in tiles
      modifies this`foodCount, this`grow, this`foods
      ensures ate <==> tiles[(x, y)] == FoodTile
      ensures foodCount == old(foodCount) - (if ate then 1 else 0)
      ensures grow == old(grow) + (if ate then 3 else 0)
      ensures foods == old(foods) - {(x, y)}
    {
      ate := tiles[(x, y)] == FoodTile;
      if ate {
        foodCount := foodCount - 1;
        grow := grow + 3;
      }
      foods := foods - {(x, y)};
    }

    /**
     * The head's tile shows the head and joins the list; then the snake
     * grows by one while it has growing to do, and otherwise its tail tile
     * is cleared and leaves the list. Both tiles are queued for redrawing.
     */
    method Extend() returns (grew: bool)
      requires |snakeList| >= 1
      modifies this`tiles, this`toUpdate, this`snakeList, this`grow, this`length
      ensures grew <==> old(grow) > 0
      ensures tiles == MovedTiles(old(tiles), (x, y), old(snakeList[0]), grew)
      ensures snakeList == Moved(old(snakeList), (x, y), grew)
      ensures toUpdate == old(toUpdate) + [(x, y)] + (if grew then [] else [old(snakeList[0])])
      ensures grow == old(grow) - (if grew then 1 else 0)
      ensures length == old(length) + (if grew then 1 else 0)
    {
      tiles := tiles[(x, y) := HeadTile];
      toUpdate := toUpdate + [(x, y)];
      snakeList := snakeList + [(x, y)];
      grew := grow > 0;
      if grew {
        grow := grow - 1;
        length := length + 1;
      } else {
        var tail := snakeList[0];
        tiles := tiles[tail := Empty];
        snakeList := snakeList[1..];
        toUpdate := toUpdate + [tail];
      }
    }

    /** The second half of `snake.move`, after a step onto a tile with no body piece. */
    method Settle()
      requires |snakeList| >= 1 && (x, y) in tiles
      modifies this`foodCount, this`grow, this`foods, this`tiles, this`toUpdate, this`snakeList, this`length
      ensures View() == Settled(old(View()))
    {
      ghost var t := View();
      var ate := Eat();
      var grew := Extend();
      assert View() == SettledWith(t, ate, grew);
    }

    /**
     * `snake.move`: take the planned direction, mark the old head's tile as
     * body, step (clamped at the edges), then either collide with a body
     * piece and end the game, or move the head there, eating any food, and
     * grow or drop the tail tile.
     */
    method Move()
      requires ShapeOf(View())
      modifies this
      ensures View() == StepMove(old(View()))
    {
      StepHead();
      if tiles[(x, y)] == BodyTile {
        var _ := GameOver();
      } else {
        Settle();
      }
    }

    /**
     * One food placement of `update`: an empty tile, chosen freely, gets
     * food. The source retries random tiles until one is empty; here no
     * food is placed when none is.
     */
    method PlaceFood() returns (placed: Option<Cell>)
      modifies this`tiles, this`toUpdate, this`foodCount, this`foods
      ensures placed.None? <==> !HasEmpty(old(View()))
      ensures placed.None? ==> View() == old(View())
      ensures placed.Some? ==>
        && placed.value in old(tiles) && old(tiles)[placed.value] == Empty
        && View() == WithFood(old(View()), placed.value)
    {
      if exists c | c in tiles :: tiles[c] == Empty {
        var c :| c in tiles && tiles[c] == Empty;
        tiles := tiles[c := FoodTile];
        toUpdate := toUpdate + [c];
        foodCount := foodCount + 1;
        foods := foods + {c};
        placed := Some(c);
      } else {
        placed := None;
      }
    }

    /** The playing part of `update` before the food: take the arrow keys, count the frame, move on every eighth. */
    method Tick(keys: set<int>)
      requires Valid() && state == Play
      modifies this
      ensures Valid()
      ensures View() == Ticked(old(View()), keys)
    {
      ghost var s0 := View();
      nextDirection := NextDirection(keys, direction, nextDirection);
      ticks := ticks + 1;
      if ticks % 8 == 0 {
        Move();
      }
      assert View() == Ticked(s0, keys) by {
        assert Steered(s0, keys).ticks % 8 == 0 ==> View() == StepMove(Steered(s0, keys));
      }
      TickKeeps(s0, keys);
    }

    /** The food part of `update`: add food on an empty tile when none is left, or on every thousandth frame while fewer than three. */
    method FeedIfDue()
      requires Valid()
      modifies this
      ensures Valid()
      ensures FoodDue(old(View())) && HasEmpty(old(View())) ==>
        exists c :: c in old(tiles) && old(tiles)[c] == Empty && View() == WithFood(old(View()), c)
      ensures !(FoodDue(old(View())) && HasEmpty(old(View()))) ==> View() == old(View())
    {
      if foodCount == 0 || (ticks % 1000 == 0 && foodCount < 3) {
        ghost var s := View();
        var placed := PlaceFood();
        if placed.Some? {
          FoodKeeps(s, placed.value);
        }
      }
    }

    /**
     * `update`, one animation frame: while playing, take the arrow keys,
     * count the frame, move on every eighth one, and add food when it is
     * due (even on the frame the game ends); after a game over, Space
     * starts a new game.
     */
    method Update(keys: set<int>)
      requires Valid()
      modifies this
      ensures Valid()
      ensures old(state) == Play ==>
        var s1 := Ticked(old(View()), keys);
        && (FoodDue(s1) && HasEmpty(s1) ==>
              exists c :: c in s1.picture && s1.picture[c] == Empty && View() == WithFood(s1, c))
        && (!(FoodDue(s1) && HasEmpty(s1)) ==> View() == s1)
      ensures old(state) == Over && Space in keys ==>
        |toUpdate| == 1 && View() == Started(old(highScore), toUpdate[0])
      ensures old(state) == Over && Space !in keys ==> unchanged(this)
    {
      if state == Play {
        Tick(keys);
        FeedIfDue();
      } else if Space in keys {
        Init();
      }
    }
  }
}
