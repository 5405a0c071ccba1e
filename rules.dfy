/**
 * The snake engine of SnakeModel.cs as values: the board, the snake, the
 * direction gate, the timer flag and the notifications raised, with one
 * function per operation. The class in model.dfy is proved to follow these
 * functions; the lemmas here state what the operations promise.
 */
module Rules {
  import opened Wrappers
  import opened Tiles

  /** A map coordinate (row, column), as the tiles' X and Y. */
  type Pos = (int, int)

  /** The type of every tile, keyed by its coordinates. */
  type Grid = map<Pos, TileType>

  datatype Direction = Up | Down | Left | Right

  /** The notifications the engine raises, in the order it raises them. */
  datatype Event =
    | MapChanged(size: int)
    | TileChanged(x: int, y: int, kind: TileType)
    | GameOver(score: int)

  /**
   * The engine's state once a level is loaded: `n` is the side of the map,
   * `tail` the queue of body cells (oldest first), `running` whether the
   * timer is enabled, `log` every notification raised so far.
   */
  datatype Game = Game(
    n: nat,
    cells: Grid,
    head: Pos,
    tail: seq<Pos>,
    direction: Direction,
    changedDirection: bool,
    running: bool,
    log: seq<Event>)

  /** Commands of the input driver, and the timer's tick. */
  datatype Command = Turn(d: Direction) | Tick(rand: nat) | Hold(pause: bool)

  // ---------------------------------------------------------------- geometry

  predicate InBounds(n: int, p: Pos) {
    0 <= p.0 < n && 0 <= p.1 < n
  }

  /** `c` has exactly one entry per tile of an `n` by `n` map. */
  ghost predicate IsGrid(n: int, c: Grid) {
    forall p :: p in c <==> InBounds(n, p)
  }

  /** The cell one step from `p` towards `d`; X is the row, Y the column. */
  function Ahead(p: Pos, d: Direction): Pos {
    match d
    case Up => (p.0 - 1, p.1)
    case Down => (p.0 + 1, p.1)
    case Left => (p.0, p.1 - 1)
    case Right => (p.0, p.1 + 1)
  }

  /** The number of single steps between two cells, along rows and columns. */
  function Dist(p: Pos, q: Pos): nat {
    (if p.0 < q.0 then q.0 - p.0 else p.0 - q.0) + (if p.1 < q.1 then q.1 - p.1 else p.1 - q.1)
  }

  /** The reverse of a direction. */
  function Opposite(d: Direction): (r: Direction)
    ensures r != d && Ahead(Ahead((0, 0), d), r) == (0, 0)
  {
    match d
    case Up => Down
    case Down => Up
    case Left => Right
    case Right => Left
  }

  /** The cells of row `i` in columns `0 .. j-1`, left to right. */
  function Row(i: int, j: nat): (r: seq<Pos>)
    ensures |r| == j
    ensures forall p {:trigger p in r} :: p in r <==> p.0 == i && 0 <= p.1 < j
  {
    if j == 0 then [] else Row(i, j - 1) + [(i, j - 1)]
  }

  /** Rows `0 .. i-1` of an `n`-wide map, row by row: the order of `foreach` over `Tile[,]`. */
  function Rows(n: nat, i: nat): (r: seq<Pos>)
    ensures forall p {:trigger p in r} :: p in r <==> 0 <= p.0 < i && 0 <= p.1 < n
  {
    if i == 0 then [] else Rows(n, i - 1) + Row(i - 1, n)
  }

  /** Every cell of the map exactly in scan order. */
  function ScanOrder(n: nat): (r: seq<Pos>)
    ensures forall p :: p in r <==> InBounds(n, p)
  {
    Rows(n, n)
  }

  /** The cells of `s` whose type in `c` is one of `kinds`, in their order in `s`. */
  function Filter(s: seq<Pos>, c: Grid, kinds: set<TileType>): (r: seq<Pos>)
    ensures forall x {:trigger x in r} :: x in r <==> x in s && x in c && c[x] in kinds
    ensures |r| <= |s|
  {
    if s == [] then []
    else
      var last := s[|s| - 1];
      assert s == s[..|s| - 1] + [last];
      Filter(s[..|s| - 1], c, kinds) + (if last in c && c[last] in kinds then [last] else [])
  }

  lemma FilterSnoc(s: seq<Pos>, x: Pos, c: Grid, kinds: set<TileType>)
    ensures Filter(s + [x], c, kinds) == if x in c && c[x] in kinds then Filter(s, c, kinds) + [x] else Filter(s, c, kinds)
  {
    assert (s + [x])[..|s|] == s;
    assert Filter(s, c, kinds) + [] == Filter(s, c, kinds);
  }

  /** `c` with every cell of `ps` set to `t`, in order. */
  function Paint(c: Grid, ps: seq<Pos>, t: TileType): (r: Grid)
    ensures forall p {:trigger p in r} :: p in r <==> p in c || p in ps
    ensures forall p {:trigger r[p]} :: p in ps ==> r[p] == t
    ensures forall p {:trigger r[p]} :: p in c && p !in ps ==> r[p] == c[p]
  {
    if ps == [] then c
    else
      assert ps == ps[..|ps| - 1] + [ps[|ps| - 1]];
      Paint(c, ps[..|ps| - 1], t)[ps[|ps| - 1] := t]
  }

  lemma PaintSnoc(c: Grid, ps: seq<Pos>, p: Pos, t: TileType)
    ensures Paint(c, ps + [p], t) == Paint(c, ps, t)[p := t]
  {
    assert (ps + [p])[..|ps|] == ps;
  }

  /** An `n` by `n` map of Empty tiles. */
  function Blank(n: nat): (r: Grid)
    ensures IsGrid(n, r)
    ensures forall p :: p in r ==> r[p] == Empty
  {
    map i, j | 0 <= i < n && 0 <= j < n :: (i, j) := Empty
  }

  // ---------------------------------------------------------- notifications

  /** One TileChanged of type `t` per cell of `ps`, in order. */
  function Notify(ps: seq<Pos>, t: TileType): (r: seq<Event>)
    ensures |r| == |ps|
  {
    if ps == [] then []
    else Notify(ps[..|ps| - 1], t) + [TileChanged(ps[|ps| - 1].0, ps[|ps| - 1].1, t)]
  }

  lemma NotifySnoc(ps: seq<Pos>, p: Pos, t: TileType)
    ensures Notify(ps + [p], t) == Notify(ps, t) + [TileChanged(p.0, p.1, t)]
  {
    assert (ps + [p])[..|ps|] == ps;
  }

  /** One TileChanged per cell of `ps`, carrying that cell's type in `c`. */
  function Announce(c: Grid, ps: seq<Pos>): (r: seq<Event>)
    requires forall p :: p in ps ==> p in c
    ensures |r| == |ps|
  {
    if ps == [] then []
    else
      assert forall p :: p in ps[..|ps| - 1] ==> p in ps;
      Announce(c, ps[..|ps| - 1]) + [TileChanged(ps[|ps| - 1].0, ps[|ps| - 1].1, c[ps[|ps| - 1]])]
  }

  lemma AnnounceSnoc(c: Grid, ps: seq<Pos>, p: Pos)
    requires forall q :: q in ps ==> q in c
    requires p in c
    ensures Announce(c, ps + [p]) == Announce(c, ps) + [TileChanged(p.0, p.1, c[p])]
  {
    assert (ps + [p])[..|ps|] == ps;
  }

  // ------------------------------------------------------------ the snake

  /** The snake's cells, oldest tail segment first and the head last. */
  function Body(g: Game): seq<Pos> {
    g.tail + [g.head]
  }

  /** The score: the tail's length beyond the four segments it is spawned with. */
  function Score(g: Game): (r: int)
    ensures r == |Body(g)| - 5
  {
    |g.tail| - 4
  }

  ghost predicate NoDup<T>(s: seq<T>) {
    forall i, j :: 0 <= i < j < |s| ==> s[i] != s[j]
  }

  /** A full map, with every segment of the snake on it. */
  ghost predicate Placed(g: Game) {
    IsGrid(g.n, g.cells) && forall p :: p in Body(g) ==> InBounds(g.n, p)
  }

  /**
   * What the engine keeps true while a game is loaded: a full map, at least
   * four tail segments, head and tail pairwise distinct cells of the map, and
   * those cells exactly the ones tagged Snake.
   */
  ghost predicate Inv(g: Game) {
    && g.n >= 5
    && Placed(g)
    && |g.tail| >= 4
    && NoDup(Body(g))
    && (forall p :: p in g.cells ==> (g.cells[p] == Snake <==> p in Body(g)))
  }

  /** The four tail cells of a new snake on a map whose middle is `m`, oldest first. */
  function SpawnTail(m: int): seq<Pos> {
    [(m, m - 2), (m, m - 1), (m, m), (m, m + 1)]
  }

  /** The head cell of a new snake on a map whose middle is `m`. */
  function SpawnHead(m: int): Pos {
    (m, m + 2)
  }

  // ------------------------------------------------------------ operations

  /**
   * The Direction setter: a request is ignored when a change was already
   * accepted since the last move or when it is the exact reverse of the
   * current direction; otherwise it is taken and closes the gate.
   */
  function Steer(current: Direction, changed: bool, requested: Direction): (r: (Direction, bool))
    ensures r.0 != Opposite(current)
    ensures changed ==> r == (current, changed)
    ensures requested == Opposite(current) ==> r == (current, changed)
    ensures !changed && requested != Opposite(current) ==> r == (requested, true)
  {
    if changed then (current, changed)
    else if (current == Up && requested == Down) || (current == Down && requested == Up)
         || (current == Left && requested == Right) || (current == Right && requested == Left)
    then (current, changed)
    else (requested, true)
  }

  /** The effect of a run of direction requests with no move between them. */
  function SteerAll(current: Direction, changed: bool, requests: seq<Direction>): (Direction, bool)
    decreases |requests|
  {
    if requests == [] then (current, changed)
    else
      var s := Steer(current, changed, requests[0]);
      SteerAll(s.0, s.1, requests[1..])
  }

  /** The first request of `requests` that is not the reverse of `d`, if any. */
  function FirstTurn(d: Direction, requests: seq<Direction>): Option<Direction>
    decreases |requests|
  {
    if requests == [] then None
    else if requests[0] != Opposite(d) then Some(requests[0])
    else FirstTurn(d, requests[1..])
  }

  /** The tile ahead of the head, or None where the step leaves the map. */
  function Preview(g: Game): (r: Option<Pos>)
    ensures r.Some? <==> InBounds(g.n, Ahead(g.head, g.direction))
    ensures r.Some? ==> r.value == Ahead(g.head, g.direction)
    ensures r.Some? ==> Dist(r.value, g.head) == 1
  {
    var q := Ahead(g.head, g.direction);
    if InBounds(g.n, q) then Some(q) else None
  }

  /** The cells SpawnFood may choose from, in scan order. */
  function FreeCells(g: Game): seq<Pos> {
    Filter(ScanOrder(g.n), g.cells, {Empty})
  }

  /**
   * SpawnFood: one Empty cell becomes Food. `rand` stands for the random
   * generator's draw; `r.Next(0, count)` is taken as `rand % count`.
   */
  function SpawnFood(g: Game, rand: nat): (r: Game)
    ensures r.(cells := g.cells, log := g.log) == g
    ensures forall q :: q in r.cells <==> q in g.cells
    ensures forall q :: q in g.cells && r.cells[q] != g.cells[q] ==> g.cells[q] == Empty && r.cells[q] == Food
  {
    var free := FreeCells(g);
    if |free| == 0 then g
    else
      var p := free[rand % |free|];
      assert p in free && g.cells[p] == Empty;
      g.(cells := g.cells[p := Food], log := g.log + [TileChanged(p.0, p.1, Food)])
  }

  /** OnGameOver: the timer stops and GameOver carries the current score. */
  function Collide(g: Game): (r: Game)
    ensures r.(running := g.running, log := g.log) == g
    ensures !r.running && r.log == g.log + [GameOver(Score(g))]
  {
    g.(running := false, log := g.log + [GameOver(Score(g))])
  }

  /** The food branch before the new food: the old head joins the tail and `p` becomes the head. */
  function Grow(g: Game, p: Pos): (r: Game)
    ensures Body(r) == Body(g) + [p]
  {
    g.(tail := g.tail + [g.head], head := p, cells := g.cells[p := Snake])
  }

  /** The food branch of MoveSnake: grow onto `p`, place a new food, then announce the new head. */
  function Feed(g: Game, p: Pos, rand: nat): (r: Game)
    ensures Body(r) == Body(g) + [p]
  {
    var fed := SpawnFood(Grow(g, p), rand);
    fed.(log := fed.log + [TileChanged(p.0, p.1, Snake)])
  }

  /** Dequeuing the oldest tail segment: its cell becomes Empty. */
  function Shrink(g: Game): (r: Game)
    requires |g.tail| >= 1
    ensures Body(r) == Body(g)[1..]
  {
    g.(tail := g.tail[1..], cells := g.cells[g.tail[0] := Empty])
  }

  /**
   * The Empty branch of MoveSnake: `p` becomes the head, the old head the
   * newest tail segment, and the oldest segment's cell is freed.
   */
  function Slide(g: Game, p: Pos): (r: Game)
    ensures Body(r) == Body(g)[1..] + [p]
  {
    var removed := Body(g)[0];
    var s := Shrink(Grow(g, p));
    assert Body(s) == (Body(g) + [p])[1..] == Body(g)[1..] + [p];
    s.(log := g.log + [TileChanged(p.0, p.1, Snake), TileChanged(removed.0, removed.1, Empty)])
  }

  /** MoveSnake: one step of the snake, with exactly one of three outcomes. */
  function Move(g: Game, rand: nat): (r: Game)
    requires Placed(g)
    ensures !r.changedDirection
    ensures r.n == g.n && r.direction == g.direction && Placed(r)
  {
    var g0 := g.(changedDirection := false);
    match Preview(g)
    case None => Collide(g0)
    case Some(p) =>
      if g.cells[p] == Snake || g.cells[p] == Wall then Collide(g0)
      else if g.cells[p] == Food then
        assert Body(Feed(g0, p, rand)) == Body(g) + [p];
        Feed(g0, p, rand)
      else
        var r := Slide(g0, p);
        assert Body(g)[0] in Body(g);
        assert forall q :: q in Body(g)[1..] ==> q in Body(g);
        r
  }

  /** The walls, the snake and its direction of a new game, before any food. */
  function Layout(n: nat, walls: seq<Pos>): (r: Grid)
    requires n >= 5
    requires forall p :: p in walls ==> InBounds(n, p)
    ensures IsGrid(n, r)
  {
    var m := n / 2;
    var walled := Paint(Blank(n), walls, Wall);
    assert IsGrid(n, walled);
    var body := SpawnTail(m) + [SpawnHead(m)];
    assert forall p :: p in body ==> InBounds(n, p);
    Paint(walled, body, Snake)
  }

  /**
   * NewGame: a fresh `n` by `n` map with the walls, a five-cell snake in the
   * middle facing Right, one food, and the timer started. The direction gate
   * is left as it was.
   */
  function NewGame(n: nat, walls: seq<Pos>, changed: bool, log: seq<Event>, rand: nat): (r: Game)
    requires n >= 5
    requires forall p :: p in walls ==> InBounds(n, p)
    ensures r.n == n && IsGrid(n, r.cells) && r.running
  {
    var fed := FedLayout(n, walls, changed, log, rand);
    fed.(running := true, log := fed.log + Announce(fed.cells, ScanOrder(n)))
  }

  /** A new game's board before its first move, food placed. */
  function FedLayout(n: nat, walls: seq<Pos>, changed: bool, log: seq<Event>, rand: nat): (r: Game)
    requires n >= 5
    requires forall p :: p in walls ==> InBounds(n, p)
    ensures r.n == n && IsGrid(n, r.cells)
  {
    var m := n / 2;
    SpawnFood(Game(n, Layout(n, walls), SpawnHead(m), SpawnTail(m), Right, changed, false, log + [MapChanged(n)]), rand)
  }

  /** The Snake and Food cells RestartLevel clears, in scan order. */
  function Stale(g: Game): (r: seq<Pos>)
    ensures forall p :: p in r <==> InBounds(g.n, p) && p in g.cells && g.cells[p] in {Snake, Food}
  {
    Filter(ScanOrder(g.n), g.cells, {Snake, Food})
  }

  /** The map once RestartLevel has cleared it: only the walls remain. */
  function Cleared(g: Game): (c: Grid)
    requires IsGrid(g.n, g.cells)
    ensures IsGrid(g.n, c)
    ensures forall p :: p in c ==> c[p] == if g.cells[p] == Wall then Wall else Empty
  {
    ClearedKeepsOnlyWalls(g);
    Paint(g.cells, Stale(g), Empty)
  }

  /** RestartLevel up to the food: the cleared map with a new snake facing Right. */
  function Respawn(g: Game): (r: Game)
    requires g.n >= 5 && IsGrid(g.n, g.cells)
    ensures r.n == g.n && IsGrid(r.n, r.cells)
  {
    var m := g.n / 2;
    var body := SpawnTail(m) + [SpawnHead(m)];
    SpawnFits(g.n);
    Game(g.n, Paint(Cleared(g), body, Snake), SpawnHead(m), SpawnTail(m), Right,
         g.changedDirection, g.running, g.log + Notify(Stale(g), Empty) + Notify(body, Snake))
  }

  /**
   * RestartLevel: on the same map, every Snake and Food cell is cleared, the
   * snake is spawned again facing Right, a food is placed and the timer runs.
   */
  function Restart(g: Game, rand: nat): (r: Game)
    requires g.n >= 5 && IsGrid(g.n, g.cells)
    ensures r.n == g.n && IsGrid(r.n, r.cells) && r.running
  {
    SpawnFood(Respawn(g), rand).(running := true)
  }

  /** One command of the input driver or one tick of the timer. */
  function Step(g: Game, c: Command): (r: Game)
    requires Placed(g)
    ensures r.n == g.n && Placed(r)
  {
    match c
    case Turn(d) =>
      var s := Steer(g.direction, g.changedDirection, d);
      g.(direction := s.0, changedDirection := s.1)
    case Tick(rand) => if g.running then Move(g, rand) else g
    case Hold(pause) => g.(running := !pause)
  }

  function Play(g: Game, cs: seq<Command>): (r: Game)
    requires Placed(g)
    ensures r.n == g.n && Placed(r)
    decreases |cs|
  {
    if cs == [] then g else Play(Step(g, cs[0]), cs[1..])
  }

  // ---------------------------------------------------------------- lemmas

  /** Before the first move only the first request that is not a reversal takes effect. */
  lemma {:induction false} OneTurnPerMove(d: Direction, requests: seq<Direction>)
    ensures SteerAll(d, false, requests) ==
      match FirstTurn(d, requests)
      case None => (d, false)
      case Some(t) => (t, true)
    decreases |requests|
  {
    if requests != [] {
      if requests[0] == Opposite(d) {
        OneTurnPerMove(d, requests[1..]);
      } else {
        GateHolds(requests[0], requests[1..]);
      }
    }
  }

  /** Once a change is accepted, every further request is ignored until the next move. */
  lemma {:induction false} GateHolds(d: Direction, requests: seq<Direction>)
    ensures SteerAll(d, true, requests) == (d, true)
    decreases |requests|
  {
    if requests != [] {
      GateHolds(d, requests[1..]);
    }
  }

  /** SpawnFood turns exactly one Empty cell into Food, or changes nothing on a full board. */
  lemma SpawnFoodSpec(g: Game, rand: nat)
    requires IsGrid(g.n, g.cells)
    ensures (forall p :: p in g.cells ==> g.cells[p] != Empty) ==> SpawnFood(g, rand) == g
    ensures (exists p :: p in g.cells && g.cells[p] == Empty) ==>
      exists p :: p in g.cells && g.cells[p] == Empty
        && SpawnFood(g, rand) == g.(cells := g.cells[p := Food], log := g.log + [TileChanged(p.0, p.1, Food)])
  {
    var free := FreeCells(g);
    if |free| > 0 {
      var p := free[rand % |free|];
      assert p in free;
      assert SpawnFood(g, rand) == g.(cells := g.cells[p := Food], log := g.log + [TileChanged(p.0, p.1, Food)]);
    } else {
      forall q | q in g.cells && g.cells[q] == Empty ensures false {
        ghost var listed := q in free;
      }
    }
  }

  /** SpawnFood keeps the invariant and touches no Snake or Wall cell. */
  lemma SpawnFoodKeepsInv(g: Game, rand: nat)
    requires Inv(g)
    ensures Inv(SpawnFood(g, rand))
    ensures forall p :: p in g.cells && g.cells[p] != Empty ==> SpawnFood(g, rand).cells[p] == g.cells[p]
  {
    SpawnFoodSpec(g, rand);
  }

  /** Growing onto a cell that is not Snake keeps the invariant: that cell is not yet part of the snake. */
  lemma GrowKeepsInv(g: Game, p: Pos)
    requires Inv(g)
    requires p in g.cells && g.cells[p] != Snake
    ensures Inv(Grow(g, p))
  {
    var g1 := Grow(g, p);
    assert p !in Body(g);
    forall i, j | 0 <= i < j < |Body(g1)| ensures Body(g1)[i] != Body(g1)[j] {
      if j < |Body(g)| {
        assert Body(g1)[i] == Body(g)[i] && Body(g1)[j] == Body(g)[j];
      } else {
        assert Body(g1)[i] in Body(g);
      }
    }
  }

  /** The invariant survives every move; in particular the snake never overlaps itself. */
  lemma MoveKeepsInv(g: Game, rand: nat)
    requires Inv(g)
    ensures Inv(Move(g, rand))
  {
    var g0 := g.(changedDirection := false);
    match Preview(g)
    case None =>
    case Some(p) =>
      if g.cells[p] == Snake || g.cells[p] == Wall {
      } else if g.cells[p] == Food {
        FeedKeepsInv(g0, p, rand);
      } else {
        SlideKeepsInv(g0, p);
      }
  }

  /** The food branch keeps the invariant. */
  lemma FeedKeepsInv(g: Game, p: Pos, rand: nat)
    requires Inv(g)
    requires p in g.cells && g.cells[p] == Food
    ensures Inv(Feed(g, p, rand))
  {
    GrowKeepsInv(g, p);
    SpawnFoodKeepsInv(Grow(g, p), rand);
    var fed := SpawnFood(Grow(g, p), rand);
    InvIgnoresClock(fed, fed.running, fed.log + [TileChanged(p.0, p.1, Snake)]);
  }

  /** Dequeuing a segment of a snake longer than the spawn keeps the invariant. */
  lemma ShrinkKeepsInv(g: Game)
    requires Inv(g) && |g.tail| >= 5
    ensures Inv(Shrink(g))
  {
    var r := Shrink(g);
    var removed := g.tail[0];
    assert removed == Body(g)[0];
    assert removed !in Body(g)[1..] by {
      forall k | 0 <= k < |Body(g)| - 1 ensures Body(g)[1..][k] != removed {
        assert Body(g)[1..][k] == Body(g)[k + 1];
      }
    }
    assert NoDup(Body(r)) by {
      forall i, j | 0 <= i < j < |Body(r)| ensures Body(r)[i] != Body(r)[j] {
        assert Body(r)[i] == Body(g)[i + 1] && Body(r)[j] == Body(g)[j + 1];
      }
    }
    forall q | q in r.cells ensures r.cells[q] == Snake <==> q in Body(r) {
      if q != removed {
        assert q in Body(g) <==> q in Body(g)[1..] by {
          if q in Body(g) {
            var k :| 0 <= k < |Body(g)| && Body(g)[k] == q;
            assert k != 0;
            assert Body(g)[1..][k - 1] == q;
          }
        }
      }
    }
  }

  /** The Empty branch keeps the invariant. */
  lemma SlideKeepsInv(g: Game, p: Pos)
    requires Inv(g)
    requires p in g.cells && g.cells[p] == Empty
    ensures Inv(Slide(g, p))
  {
    GrowKeepsInv(g, p);
    ShrinkKeepsInv(Grow(g, p));
    var s := Shrink(Grow(g, p));
    InvIgnoresClock(s, s.running, Slide(g, p).log);
    assert Slide(g, p) == s.(running := s.running, log := Slide(g, p).log);
  }

  /** Entering the cell the oldest tail segment still occupies is a collision. */
  lemma BitingTheTailEndsTheGame(g: Game, rand: nat)
    requires Inv(g)
    requires Preview(g) == Some(g.tail[0])
    ensures Move(g, rand) == Collide(g.(changedDirection := false))
  {
    assert g.tail[0] in Body(g);
  }

  /** A collision changes no tile and no segment, stops the timer and raises one GameOver with the score. */
  lemma MoveCollision(g: Game, rand: nat)
    requires Placed(g)
    requires Preview(g).None? || g.cells[Preview(g).value] in {Snake, Wall}
    ensures var r := Move(g, rand);
      && r.cells == g.cells && r.head == g.head && r.tail == g.tail
      && !r.running && r.log == g.log + [GameOver(Score(g))]
  {
  }

  /**
   * Eating: the old head becomes the newest tail segment, the food cell the
   * head, the score rises by one and no Snake, Wall or Food cell elsewhere
   * changes.
   */
  lemma MoveEat(g: Game, rand: nat)
    requires Inv(g)
    requires Preview(g).Some? && g.cells[Preview(g).value] == Food
    ensures var r := Move(g, rand); var p := Preview(g).value;
      && r.head == p && r.tail == g.tail + [g.head]
      && Score(r) == Score(g) + 1
      && r.cells[p] == Snake
      && (forall q :: q in g.cells && q != p && g.cells[q] != Empty ==> r.cells[q] == g.cells[q])
      && r.running == g.running
  {
    var p := Preview(g).value;
    var g0 := g.(changedDirection := false);
    SpawnFoodSpec(Grow(g0, p), rand);
  }

  /**
   * The food after eating: a new food appears on a cell that was Empty, when
   * there is one, and the log gains that food and then the new head; on a
   * board with no Empty cell only the head is announced.
   */
  lemma MoveEatSpawnsFood(g: Game, rand: nat)
    requires Inv(g)
    requires Preview(g).Some? && g.cells[Preview(g).value] == Food
    ensures var r := Move(g, rand); var p := Preview(g).value;
      (forall q :: q in g.cells ==> g.cells[q] != Empty) ==>
        r.cells == g.cells[p := Snake] && r.log == g.log + [TileChanged(p.0, p.1, Snake)]
    ensures var r := Move(g, rand); var p := Preview(g).value;
      (exists q :: q in g.cells && g.cells[q] == Empty) ==>
        exists q :: q in g.cells && g.cells[q] == Empty
          && r.cells == g.cells[p := Snake][q := Food]
          && r.log == g.log + [TileChanged(q.0, q.1, Food), TileChanged(p.0, p.1, Snake)]
  {
    var p := Preview(g).value;
    var g0 := g.(changedDirection := false);
    var grown := Grow(g0, p);
    SpawnFoodSpec(grown, rand);
    assert Move(g, rand) == Feed(g0, p, rand);
    forall q | q in g.cells && g.cells[q] == Empty
      ensures q in grown.cells && grown.cells[q] == Empty
    {
    }
    if exists q :: q in grown.cells && grown.cells[q] == Empty {
      var q :| q in grown.cells && grown.cells[q] == Empty
        && SpawnFood(grown, rand) == grown.(cells := grown.cells[q := Food], log := grown.log + [TileChanged(q.0, q.1, Food)]);
      assert q in g.cells && g.cells[q] == Empty;
      assert grown.cells == g.cells[p := Snake] && grown.log == g.log;
      var r := Move(g, rand);
      assert r.cells == g.cells[p := Snake][q := Food];
      assert r.log == g.log + [TileChanged(q.0, q.1, Food), TileChanged(p.0, p.1, Snake)];
    }
  }

  /**
   * An ordinary step: the old head joins the tail, the oldest segment's cell
   * becomes Empty, the score is unchanged and no other cell changes.
   */
  lemma MoveStep(g: Game, rand: nat)
    requires Inv(g)
    requires Preview(g).Some? && g.cells[Preview(g).value] == Empty
    ensures var r := Move(g, rand); var p := Preview(g).value;
      && r.head == p && r.tail == g.tail[1..] + [g.head]
      && Score(r) == Score(g)
      && r.cells == g.cells[p := Snake][g.tail[0] := Empty]
      && r.log == g.log + [TileChanged(p.0, p.1, Snake), TileChanged(g.tail[0].0, g.tail[0].1, Empty)]
  {
    assert (g.tail + [g.head])[1..] == g.tail[1..] + [g.head];
  }

  /** The two maps have the same cells and the same walls. */
  ghost predicate SameWalls(a: Grid, b: Grid) {
    forall p :: (p in a <==> p in b) && (p in a ==> (a[p] == Wall <==> b[p] == Wall))
  }

  /** No move or command ever places or removes a wall. */
  lemma MoveKeepsWalls(g: Game, rand: nat)
    requires Inv(g)
    ensures SameWalls(g.cells, Move(g, rand).cells)
  {
    var g0 := g.(changedDirection := false);
    match Preview(g)
    case None =>
    case Some(p) =>
      if g.cells[p] == Empty {
        assert (g.tail + [g.head])[0] in Body(g);
      }
  }

  lemma {:induction false} PlayKeepsInv(g: Game, cs: seq<Command>)
    requires Inv(g)
    ensures Inv(Play(g, cs))
    decreases |cs|
  {
    if cs != [] {
      match cs[0] {
        case Tick(rand) => if g.running { MoveKeepsInv(g, rand); }
        case _ =>
      }
      PlayKeepsInv(Step(g, cs[0]), cs[1..]);
    }
  }

  lemma {:induction false} PlayKeepsWalls(g: Game, cs: seq<Command>)
    requires Inv(g)
    ensures SameWalls(g.cells, Play(g, cs).cells)
    decreases |cs|
  {
    if cs != [] {
      var s := Step(g, cs[0]);
      match cs[0] {
        case Tick(rand) => if g.running { MoveKeepsWalls(g, rand); MoveKeepsInv(g, rand); }
        case _ =>
      }
      PlayKeepsInv(g, cs[..1]);
      PlayKeepsWalls(s, cs[1..]);
    }
  }

  /** After a game over the stopped timer delivers no move: ticks change nothing. */
  lemma {:induction false} HaltedIgnoresTicks(g: Game, rands: seq<nat>)
    requires Placed(g) && !g.running
    ensures Play(g, seq(|rands|, k requires 0 <= k < |rands| => Tick(rands[k]))) == g
    decreases |rands|
  {
    if rands != [] {
      var cs := seq(|rands|, k requires 0 <= k < |rands| => Tick(rands[k]));
      assert cs[1..] == seq(|rands[1..]|, k requires 0 <= k < |rands[1..]| => Tick(rands[1..][k]));
      HaltedIgnoresTicks(g, rands[1..]);
    }
  }

  /** A collision stops the game until a restart or a load. */
  lemma GameOverHalts(g: Game, rand: nat, rands: seq<nat>)
    requires Placed(g)
    requires Preview(g).None? || g.cells[Preview(g).value] in {Snake, Wall}
    ensures var r := Move(g, rand);
      Play(r, seq(|rands|, k requires 0 <= k < |rands| => Tick(rands[k]))) == r
  {
    HaltedIgnoresTicks(Move(g, rand), rands);
  }

  /** The spawn cells are five distinct cells of any map of side at least 5. */
  lemma SpawnFits(n: nat)
    requires n >= 5
    ensures var m := n / 2; var body := SpawnTail(m) + [SpawnHead(m)];
      NoDup(body) && forall p :: p in body ==> InBounds(n, p)
  {
  }

  /** The spawn cells are Snake, the other listed walls Wall, every other cell Empty. */
  lemma LayoutCells(n: nat, walls: seq<Pos>)
    requires n >= 5
    requires forall p :: p in walls ==> InBounds(n, p)
    ensures var c := Layout(n, walls); var m := n / 2; var body := SpawnTail(m) + [SpawnHead(m)];
      && (forall p :: p in body ==> c[p] == Snake)
      && (forall p :: p in c && p !in body ==> c[p] == if p in walls then Wall else Empty)
  {
  }

  /** The snake of a new game, before food, satisfies the invariant. */
  lemma LayoutInv(n: nat, walls: seq<Pos>, changed: bool, running: bool, log: seq<Event>)
    requires n >= 5
    requires forall p :: p in walls ==> InBounds(n, p)
    ensures var m := n / 2;
      Inv(Game(n, Layout(n, walls), SpawnHead(m), SpawnTail(m), Right, changed, running, log))
  {
    var m := n / 2;
    var g := Game(n, Layout(n, walls), SpawnHead(m), SpawnTail(m), Right, changed, running, log);
    SpawnFits(n);
    LayoutCells(n, walls);
    assert Body(g) == SpawnTail(m) + [SpawnHead(m)];
  }

  /** The board of a new game before its first move satisfies the invariant, the snake spawned in the middle. */
  lemma FedLayoutFacts(n: nat, walls: seq<Pos>, changed: bool, log: seq<Event>, rand: nat)
    requires n >= 5
    requires forall p :: p in walls ==> InBounds(n, p)
    ensures var f := FedLayout(n, walls, changed, log, rand); var m := n / 2;
      Inv(f) && f.head == SpawnHead(m) && f.tail == SpawnTail(m)
  {
    var m := n / 2;
    var g := Game(n, Layout(n, walls), SpawnHead(m), SpawnTail(m), Right, changed, false, log + [MapChanged(n)]);
    LayoutInv(n, walls, changed, false, log + [MapChanged(n)]);
    SpawnFoodKeepsInv(g, rand);
  }

  /** Beside the snake, a new game's board holds the listed walls and otherwise Empty cells and the food. */
  lemma FedLayoutCells(n: nat, walls: seq<Pos>, changed: bool, log: seq<Event>, rand: nat)
    requires n >= 5
    requires forall p :: p in walls ==> InBounds(n, p)
    ensures var f := FedLayout(n, walls, changed, log, rand); var m := n / 2;
      && (forall p :: p in walls && p !in SpawnTail(m) + [SpawnHead(m)] ==> f.cells[p] == Wall)
      && (forall p :: p in f.cells && p !in walls && p !in SpawnTail(m) + [SpawnHead(m)] ==> f.cells[p] in {Empty, Food})
  {
    var m := n / 2;
    var g := Game(n, Layout(n, walls), SpawnHead(m), SpawnTail(m), Right, changed, false, log + [MapChanged(n)]);
    LayoutCells(n, walls);
    var f := SpawnFood(g, rand);
    forall p | p in walls && p !in SpawnTail(m) + [SpawnHead(m)] ensures f.cells[p] == Wall {
      assert g.cells[p] == Wall;
    }
    forall p | p in f.cells && p !in walls && p !in SpawnTail(m) + [SpawnHead(m)] ensures f.cells[p] in {Empty, Food} {
      assert g.cells[p] == Empty;
    }
  }

  /** The invariant does not depend on the timer or the notifications. */
  lemma InvIgnoresClock(g: Game, running: bool, log: seq<Event>)
    requires Inv(g)
    ensures Inv(g.(running := running, log := log))
  {
  }

  /** Nor on the direction and its gate. */
  lemma InvIgnoresSteering(g: Game, d: Direction, changed: bool)
    requires Inv(g)
    ensures Inv(g.(direction := d, changedDirection := changed))
  {
  }

  /** A new game keeps everything of its fed layout but the timer and the log. */
  lemma NewGameKeepsFedLayout(n: nat, walls: seq<Pos>, changed: bool, log: seq<Event>, rand: nat)
    requires n >= 5
    requires forall p :: p in walls ==> InBounds(n, p)
    ensures var r := NewGame(n, walls, changed, log, rand); var f := FedLayout(n, walls, changed, log, rand);
      r.(running := f.running, log := f.log) == f && r.running
  {
  }

  /** A new game satisfies the invariant. */
  lemma NewGameInv(n: nat, walls: seq<Pos>, changed: bool, log: seq<Event>, rand: nat)
    requires n >= 5
    requires forall p :: p in walls ==> InBounds(n, p)
    ensures Inv(NewGame(n, walls, changed, log, rand))
  {
    FedLayoutFacts(n, walls, changed, log, rand);
    NewGameKeepsFedLayout(n, walls, changed, log, rand);
    var f := FedLayout(n, walls, changed, log, rand);
    var r := NewGame(n, walls, changed, log, rand);
    InvIgnoresClock(f, r.running, r.log);
    assert r == f.(running := r.running, log := r.log);
  }

  /**
   * The one food of a new game: on the wall-and-snake layout a cell that was
   * Empty, if there is one, becomes Food and no other cell changes; with no
   * Empty cell the board is the layout.
   */
  lemma NewGameFood(n: nat, walls: seq<Pos>, changed: bool, log: seq<Event>, rand: nat)
    requires n >= 5
    requires forall p :: p in walls ==> InBounds(n, p)
    ensures var c := Layout(n, walls);
      (forall p :: p in c ==> c[p] != Empty) ==> NewGame(n, walls, changed, log, rand).cells == c
    ensures var c := Layout(n, walls);
      (exists p :: p in c && c[p] == Empty) ==>
        exists q :: q in c && c[q] == Empty && NewGame(n, walls, changed, log, rand).cells == c[q := Food]
  {
    var m := n / 2;
    var g := Game(n, Layout(n, walls), SpawnHead(m), SpawnTail(m), Right, changed, false, log + [MapChanged(n)]);
    SpawnFoodSpec(g, rand);
    NewGameKeepsFedLayout(n, walls, changed, log, rand);
    assert FedLayout(n, walls, changed, log, rand) == SpawnFood(g, rand);
    if exists p :: p in g.cells && g.cells[p] == Empty {
      var q :| q in g.cells && g.cells[q] == Empty
        && SpawnFood(g, rand) == g.(cells := g.cells[q := Food], log := g.log + [TileChanged(q.0, q.1, Food)]);
      assert NewGame(n, walls, changed, log, rand).cells == g.cells[q := Food];
    }
  }

  /** A new game: the spawn layout, Score 0, facing Right, timer running, walls placed. */
  lemma NewGameSpawn(n: nat, walls: seq<Pos>, changed: bool, log: seq<Event>, rand: nat)
    requires n >= 5
    requires forall p :: p in walls ==> InBounds(n, p)
    ensures var r := NewGame(n, walls, changed, log, rand); var m := n / 2;
      && r.tail == SpawnTail(m) && r.head == SpawnHead(m)
      && r.direction == Right && Score(r) == 0 && r.running && r.changedDirection == changed
      && (forall p :: p in walls && p !in Body(r) ==> r.cells[p] == Wall)
      && (forall p :: p in r.cells && p !in walls && p !in Body(r) ==> r.cells[p] in {Empty, Food})
  {
    FedLayoutFacts(n, walls, changed, log, rand);
    FedLayoutCells(n, walls, changed, log, rand);
    NewGameKeepsFedLayout(n, walls, changed, log, rand);
  }

  lemma ClearedKeepsOnlyWalls(g: Game)
    requires IsGrid(g.n, g.cells)
    ensures var c := Paint(g.cells, Stale(g), Empty);
      IsGrid(g.n, c) && forall p :: p in c ==> c[p] == if g.cells[p] == Wall then Wall else Empty
  {
    var c := Paint(g.cells, Stale(g), Empty);
    forall p | p in c ensures c[p] == if g.cells[p] == Wall then Wall else Empty {
      if g.cells[p] in {Snake, Food} {
        assert p in Stale(g);
      }
    }
  }

  /** The snake spawned by RestartLevel is the spawn snake, facing Right, with only walls beside it. */
  lemma RespawnFacts(g: Game)
    requires g.n >= 5 && IsGrid(g.n, g.cells)
    ensures var r := Respawn(g); var m := g.n / 2;
      && r.head == SpawnHead(m) && r.tail == SpawnTail(m) && r.direction == Right
      && (forall p :: p in Body(r) ==> r.cells[p] == Snake)
      && (forall p :: p in r.cells && p !in Body(r) ==> r.cells[p] == if g.cells[p] == Wall then Wall else Empty)
  {
    assert Body(Respawn(g)) == SpawnTail(g.n / 2) + [SpawnHead(g.n / 2)];
  }

  /** The snake spawned by RestartLevel satisfies the invariant. */
  lemma RespawnInv(g: Game)
    requires g.n >= 5 && IsGrid(g.n, g.cells)
    ensures Inv(Respawn(g))
  {
    SpawnFits(g.n);
    RespawnFacts(g);
    assert Body(Respawn(g)) == SpawnTail(g.n / 2) + [SpawnHead(g.n / 2)];
  }

  /** RestartLevel keeps everything of the respawned board but the food, the timer and the log. */
  lemma RestartKeepsRespawn(g: Game, rand: nat)
    requires g.n >= 5 && IsGrid(g.n, g.cells)
    ensures var r := Restart(g, rand); var s := Respawn(g);
      && r.n == s.n && r.head == s.head && r.tail == s.tail && r.direction == s.direction
      && r.changedDirection == s.changedDirection && r.running
      && (forall q :: q in r.cells <==> q in s.cells)
      && (forall q :: q in s.cells && r.cells[q] != s.cells[q] ==> s.cells[q] == Empty && r.cells[q] == Food)
  {
  }

  /**
   * The one food of a restart: on the respawned board a cell that was Empty,
   * if there is one, becomes Food and no other cell changes; with no Empty
   * cell the board stays as respawned.
   */
  lemma RestartFood(g: Game, rand: nat)
    requires g.n >= 5 && IsGrid(g.n, g.cells)
    ensures var c := Respawn(g).cells;
      (forall p :: p in c ==> c[p] != Empty) ==> Restart(g, rand).cells == c
    ensures var c := Respawn(g).cells;
      (exists p :: p in c && c[p] == Empty) ==>
        exists q :: q in c && c[q] == Empty && Restart(g, rand).cells == c[q := Food]
  {
    var s := Respawn(g);
    SpawnFoodSpec(s, rand);
    if exists p :: p in s.cells && s.cells[p] == Empty {
      var q :| q in s.cells && s.cells[q] == Empty
        && SpawnFood(s, rand) == s.(cells := s.cells[q := Food], log := s.log + [TileChanged(q.0, q.1, Food)]);
      assert Restart(g, rand).cells == s.cells[q := Food];
    }
  }

  /** RestartLevel leaves a board that satisfies the invariant. */
  lemma RestartInv(g: Game, rand: nat)
    requires g.n >= 5 && IsGrid(g.n, g.cells)
    ensures Inv(Restart(g, rand))
  {
    var s := Respawn(g);
    RespawnInv(g);
    SpawnFoodKeepsInv(s, rand);
    var f := SpawnFood(s, rand);
    InvIgnoresClock(f, true, f.log);
    assert Restart(g, rand) == f.(running := true, log := f.log);
  }

  /** RestartLevel: the spawn layout again, Score 0, facing Right, timer running, walls untouched. */
  lemma RestartSpawn(g: Game, rand: nat)
    requires g.n >= 5 && IsGrid(g.n, g.cells)
    ensures var r := Restart(g, rand); var m := g.n / 2;
      && r.tail == SpawnTail(m) && r.head == SpawnHead(m)
      && r.direction == Right && Score(r) == 0 && r.running
      && (forall p :: p in g.cells && p !in Body(r) && g.cells[p] == Wall ==> r.cells[p] == Wall)
      && (forall p :: p in r.cells && p !in Body(r) && r.cells[p] != Food ==> r.cells[p] == if g.cells[p] == Wall then Wall else Empty)
  {
    RespawnFacts(g);
    RestartKeepsRespawn(g, rand);
    assert Body(Restart(g, rand)) == Body(Respawn(g));
  }

  /** SpawnFood's choice depends only on the map. */
  lemma SpawnFoodSameMap(g1: Game, g2: Game, rand: nat)
    requires g1.n == g2.n && g1.cells == g2.cells
    ensures SpawnFood(g1, rand).cells == SpawnFood(g2, rand).cells
  {
    assert FreeCells(g1) == FreeCells(g2);
  }

  /** Clearing two maps with the same walls gives the same map. */
  lemma ClearedSameWalls(g1: Game, g2: Game)
    requires g1.n == g2.n && IsGrid(g1.n, g1.cells) && IsGrid(g2.n, g2.cells)
    requires SameWalls(g1.cells, g2.cells)
    ensures Cleared(g1) == Cleared(g2)
  {
    var c1 := Cleared(g1);
    var c2 := Cleared(g2);
    forall p | p in c1 ensures p in c2 && c1[p] == c2[p] {
      assert p in g1.cells;
    }
  }

  /** RestartLevel's board depends on the map only through its cleared form. */
  lemma RestartSameCleared(g1: Game, g2: Game, rand: nat)
    requires g1.n == g2.n >= 5 && IsGrid(g1.n, g1.cells) && IsGrid(g2.n, g2.cells)
    requires Cleared(g1) == Cleared(g2)
    ensures var r1 := Restart(g1, rand); var r2 := Restart(g2, rand);
      r1.cells == r2.cells && r1.head == r2.head && r1.tail == r2.tail && r1.direction == r2.direction
  {
    SpawnFoodSameMap(Respawn(g1), Respawn(g2), rand);
  }

  /** Maps with the same walls are restarted to the same board. */
  lemma RestartDependsOnlyOnWalls(g1: Game, g2: Game, rand: nat)
    requires g1.n == g2.n >= 5 && IsGrid(g1.n, g1.cells) && IsGrid(g2.n, g2.cells)
    requires SameWalls(g1.cells, g2.cells)
    ensures var r1 := Restart(g1, rand); var r2 := Restart(g2, rand);
      r1.cells == r2.cells && r1.head == r2.head && r1.tail == r2.tail && r1.direction == r2.direction
  {
    ClearedSameWalls(g1, g2);
    RestartSameCleared(g1, g2, rand);
  }

  /** A new game keeps the walls of its layout; only an Empty cell took the food. */
  lemma NewGameWalls(n: nat, walls: seq<Pos>, changed: bool, log: seq<Event>, rand: nat)
    requires n >= 5
    requires forall p :: p in walls ==> InBounds(n, p)
    ensures IsGrid(n, NewGame(n, walls, changed, log, rand).cells)
    ensures SameWalls(NewGame(n, walls, changed, log, rand).cells, Layout(n, walls))
  {
    var m := n / 2;
    var g := Game(n, Layout(n, walls), SpawnHead(m), SpawnTail(m), Right, changed, false, log + [MapChanged(n)]);
    NewGameKeepsFedLayout(n, walls, changed, log, rand);
    assert NewGame(n, walls, changed, log, rand).cells == SpawnFood(g, rand).cells;
    SpawnFoodKeepsWalls(g, rand);
  }

  /** SpawnFood neither places nor removes a wall. */
  lemma SpawnFoodKeepsWalls(g: Game, rand: nat)
    ensures SameWalls(SpawnFood(g, rand).cells, g.cells)
  {
  }

  /** Respawning on a level's own layout gives that layout back, cell by cell. */
  lemma RespawnLayoutAt(g: Game, walls: seq<Pos>, p: Pos)
    requires g.n >= 5
    requires forall p :: p in walls ==> InBounds(g.n, p)
    requires g.cells == Layout(g.n, walls)
    requires p in g.cells
    ensures p in Respawn(g).cells && Respawn(g).cells[p] == g.cells[p]
  {
    var r := Respawn(g);
    var body := SpawnTail(g.n / 2) + [SpawnHead(g.n / 2)];
    LayoutCells(g.n, walls);
    RespawnFacts(g);
    assert Body(r) == body;
    if p !in body {
      assert g.cells[p] == if p in walls then Wall else Empty;
    }
  }

  /** Respawning on a level's own layout gives that layout back. */
  lemma RespawnLayout(g: Game, walls: seq<Pos>)
    requires g.n >= 5
    requires forall p :: p in walls ==> InBounds(g.n, p)
    requires g.cells == Layout(g.n, walls)
    ensures Respawn(g).cells == g.cells
  {
    var c := Respawn(g).cells;
    forall p | p in g.cells ensures p in c && c[p] == g.cells[p] {
      RespawnLayoutAt(g, walls, p);
    }
    assert forall p :: p in c ==> p in g.cells by {
      RespawnFacts(g);
    }
    SameEntries(c, g.cells);
  }

  /** Two maps with the same keys and the same value at each key are equal. */
  lemma SameEntries(a: Grid, b: Grid)
    requires forall p :: p in a ==> p in b
    requires forall p :: p in b ==> p in a && a[p] == b[p]
    ensures a == b
  {
  }

  /** Restarting a board laid out for a level gives the board of a fresh load with the same draw. */
  lemma RestartLayout(g: Game, walls: seq<Pos>, changed: bool, log: seq<Event>, rand: nat)
    requires g.n >= 5
    requires forall p :: p in walls ==> InBounds(g.n, p)
    requires g.cells == Layout(g.n, walls)
    ensures var r := Restart(g, rand); var f := NewGame(g.n, walls, changed, log, rand);
      r.cells == f.cells && r.head == f.head && r.tail == f.tail && r.direction == f.direction
  {
    var m := g.n / 2;
    RespawnLayout(g, walls);
    RespawnFacts(g);
    NewGameKeepsFedLayout(g.n, walls, changed, log, rand);
    var g0 := Game(g.n, Layout(g.n, walls), SpawnHead(m), SpawnTail(m), Right, changed, false, log + [MapChanged(g.n)]);
    SpawnFoodSameMap(Respawn(g), g0, rand);
  }

  /** Restarting a freshly loaded level gives the board a load with the same draw gives. */
  lemma RestartAfterNewGame(n: nat, walls: seq<Pos>, changed: bool, log: seq<Event>, rand0: nat, rand: nat)
    requires n >= 5
    requires forall p :: p in walls ==> InBounds(n, p)
    ensures var g := NewGame(n, walls, changed, log, rand0);
      var r := Restart(g, rand); var f := NewGame(n, walls, changed, log, rand);
      r.cells == f.cells && r.head == f.head && r.tail == f.tail && r.direction == f.direction
  {
    var m := n / 2;
    var g := NewGame(n, walls, changed, log, rand0);
    var g0 := Game(n, Layout(n, walls), SpawnHead(m), SpawnTail(m), Right, changed, false, log);
    NewGameWalls(n, walls, changed, log, rand0);
    RestartDependsOnlyOnWalls(g, g0, rand);
    RestartLayout(g0, walls, changed, log, rand);
  }

  /**
   * Whatever was played since a level was loaded, RestartLevel reproduces
   * the board, snake and direction of a fresh load of that level.
   */
  lemma RestartReproducesLoad(n: nat, walls: seq<Pos>, changed: bool, log: seq<Event>,
                              rand0: nat, cs: seq<Command>, rand: nat)
    requires n >= 5
    requires forall p :: p in walls ==> InBounds(n, p)
    ensures var g := Play(NewGame(n, walls, changed, log, rand0), cs);
      var r := Restart(g, rand); var f := NewGame(n, walls, changed, log, rand);
      r.cells == f.cells && r.head == f.head && r.tail == f.tail && r.direction == f.direction && r.running
  {
    var g := NewGame(n, walls, changed, log, rand0);
    NewGameInv(n, walls, changed, log, rand0);
    PlayKeepsWalls(g, cs);
    PlayKeepsInv(g, cs);
    RestartKeepsRespawn(Play(g, cs), rand);
    RestartDependsOnlyOnWalls(Play(g, cs), g, rand);
    RestartAfterNewGame(n, walls, changed, log, rand0, rand);
  }
}
