/**
 * SnakeModel.cs: the engine as the source keeps it, an `n` by `n` array of
 * Tile objects whose types are written in place, a head reference and a FIFO
 * tail of tile references. Every method is proved to move the state exactly
 * as the matching function of module Rules does, and to keep the invariant
 * `Rules.Inv` that the lemmas there establish.
 *
 * The timer is two flags, `timerExists` and `timerEnabled`; one call of
 * `Tick` is one Elapsed event. The random generator of SpawnFood is the
 * parameter `rand`. The notifications raised are appended to the ghost log
 * `events`.
 */
module Model {
  import opened Wrappers
  import opened Tiles
  import opened Rules
  import Persistence

  /** The coordinates of a sequence of tiles, in order. */
  function Positions(ts: seq<Tile>): (r: seq<Pos>)
    ensures |r| == |ts|
    ensures forall k :: 0 <= k < |ts| ==> r[k] == (ts[k].X, ts[k].Y)
  {
    seq(|ts|, k requires 0 <= k < |ts| => (ts[k].X, ts[k].Y))
  }

  lemma PositionsSnoc(ts: seq<Tile>, t: Tile)
    ensures Positions(ts + [t]) == Positions(ts) + [(t.X, t.Y)]
  {
    assert (ts + [t])[..|ts|] == ts;
  }

  /** The cells of row `m` from column `m - 2` up to column `j - 1`. */
  function Run(m: int, j: int): seq<Pos>
    decreases j - (m - 2)
  {
    if j <= m - 2 then [] else Run(m, j - 1) + [(m, j - 1)]
  }

  lemma RunSpawn(m: int)
    ensures Run(m, m + 2) == SpawnTail(m) && Run(m, m + 3) == SpawnTail(m) + [SpawnHead(m)]
  {
    assert Run(m, m - 1) == [(m, m - 2)];
    assert Run(m, m) == [(m, m - 2), (m, m - 1)];
    assert Run(m, m + 1) == [(m, m - 2), (m, m - 1), (m, m)];
  }

  lemma SnocAssoc<T>(a: seq<T>, b: seq<T>, x: T)
    ensures (a + b) + [x] == a + (b + [x])
  {
  }

  /** The cells before row `i`, column `j` of an `n`-wide map in scan order, built cell by cell. */
  function Scanned(n: nat, i: nat, j: nat): seq<Pos>
    decreases i, j
  {
    if j > 0 then Scanned(n, i, j - 1) + [(i, j - 1)]
    else if i > 0 then Scanned(n, i - 1, n)
    else []
  }

  /** Cell by cell, the scan reaches the order of `foreach` over the map, row by row. */
  lemma {:induction false} ScannedRows(n: nat, i: nat, j: nat)
    requires j <= n
    ensures Scanned(n, i, j) == Rows(n, i) + Row(i, j)
    decreases i, j
  {
    if j > 0 {
      ScannedRows(n, i, j - 1);
      SnocAssoc(Rows(n, i), Row(i, j - 1), (i, j - 1));
    } else if i > 0 {
      ScannedRows(n, i - 1, n);
      assert Rows(n, i) + Row(i, 0) == Rows(n, i);
    } else {
      assert Rows(n, 0) + Row(0, 0) == [];
    }
  }

  /** The scan of the whole map is the scan order of module Rules. */
  lemma ScannedAll(n: nat)
    ensures Scanned(n, n, 0) == ScanOrder(n)
  {
    ScannedRows(n, n, 0);
    assert Rows(n, n) + Row(n, 0) == Rows(n, n);
  }

  /** The scan stays inside the map. */
  lemma {:induction false} ScannedInside(n: nat, i: nat, j: nat)
    requires i <= n && j <= n && (i < n || j == 0)
    ensures forall p :: p in Scanned(n, i, j) ==> InBounds(n, p)
    decreases i, j
  {
    if j > 0 {
      ScannedInside(n, i, j - 1);
    } else if i > 0 {
      ScannedInside(n, i - 1, n);
    }
  }

  /** The cells before row `i`, column `j` in scan order whose type in `c` is one of `kinds`, built cell by cell. */
  ghost function ScanFilter(c: Grid, kinds: set<TileType>, n: nat, i: nat, j: nat): seq<Pos>
    decreases i, j
  {
    if j > 0 then
      if (i, j - 1) in c && c[(i, j - 1)] in kinds then ScanFilter(c, kinds, n, i, j - 1) + [(i, j - 1)]
      else ScanFilter(c, kinds, n, i, j - 1)
    else if i > 0 then
      ScanFilter(c, kinds, n, i - 1, n)
    else
      []
  }

  /** Scanning cell by cell picks the same cells, in the same order, as filtering the scan. */
  lemma {:induction false} ScanFilterSpec(c: Grid, kinds: set<TileType>, n: nat, i: nat, j: nat)
    requires j <= n
    ensures ScanFilter(c, kinds, n, i, j) == Filter(Scanned(n, i, j), c, kinds)
    decreases i, j
  {
    if j > 0 {
      ScanFilterSpec(c, kinds, n, i, j - 1);
      FilterSnoc(Scanned(n, i, j - 1), (i, j - 1), c, kinds);
    } else if i > 0 {
      ScanFilterSpec(c, kinds, n, i - 1, n);
    }
  }

  /**
   * The events of RestartLevel's clearing loop once it has passed the cells
   * before row `i`, column `j` of an `n`-wide map `c0`, built cell by cell.
   */
  ghost function ClearLog(c0: Grid, n: nat, i: nat, j: nat): seq<Event>
    decreases i, j
  {
    if j > 0 then
      if (i, j - 1) in c0 && (c0[(i, j - 1)] == Snake || c0[(i, j - 1)] == Food) then
        ClearLog(c0, n, i, j - 1) + [TileChanged(i, j - 1, Empty)]
      else
        ClearLog(c0, n, i, j - 1)
    else if i > 0 then
      ClearLog(c0, n, i - 1, n)
    else
      []
  }

  /** The clearing loop raises one Empty TileChanged per Snake or Food cell passed, in scan order. */
  lemma {:induction false} ClearLogSpec(c0: Grid, n: nat, i: nat, j: nat)
    requires j <= n
    ensures ClearLog(c0, n, i, j) == Notify(Filter(Scanned(n, i, j), c0, {Snake, Food}), Empty)
    decreases i, j
  {
    if j > 0 {
      ClearLogSpec(c0, n, i, j - 1);
      ClearSnoc(c0, Scanned(n, i, j - 1), (i, j - 1));
    } else if i > 0 {
      ClearLogSpec(c0, n, i - 1, n);
    }
  }

  /** One more cell passed by the clearing loop adds its event, if it had one. */
  lemma ClearSnoc(c0: Grid, s: seq<Pos>, x: Pos)
    ensures Notify(Filter(s + [x], c0, {Snake, Food}), Empty) ==
      if x in c0 && (c0[x] == Snake || c0[x] == Food) then Notify(Filter(s, c0, {Snake, Food}), Empty) + [TileChanged(x.0, x.1, Empty)]
      else Notify(Filter(s, c0, {Snake, Food}), Empty)
  {
    FilterSnoc(s, x, c0, {Snake, Food});
    NotifySnoc(Filter(s, c0, {Snake, Food}), x, Empty);
  }

  /**
   * The events of NewGame's closing loop once it has passed the cells
   * before row `i`, column `j` of the `n` by `n` map `c`, built cell by cell.
   */
  ghost function AnnounceLog(c: Grid, n: nat, i: nat, j: nat): seq<Event>
    requires IsGrid(n, c) && i <= n && j <= n && (i < n || j == 0)
    decreases i, j
  {
    if j > 0 then
      AnnounceLog(c, n, i, j - 1) + [TileChanged(i, j - 1, c[(i, j - 1)])]
    else if i > 0 then
      AnnounceLog(c, n, i - 1, n)
    else
      []
  }

  /** The closing loop raises one TileChanged per cell passed, with its type, in scan order. */
  lemma {:induction false} AnnounceLogSpec(c: Grid, n: nat, i: nat, j: nat)
    requires IsGrid(n, c) && i <= n && j <= n && (i < n || j == 0)
    ensures forall p :: p in Scanned(n, i, j) ==> p in c
    ensures AnnounceLog(c, n, i, j) == Announce(c, Scanned(n, i, j))
    decreases i, j
  {
    ScannedInside(n, i, j);
    if j > 0 {
      AnnounceLogSpec(c, n, i, j - 1);
      AnnounceSnoc(c, Scanned(n, i, j - 1), (i, j - 1));
    } else if i > 0 {
      AnnounceLogSpec(c, n, i - 1, n);
    }
  }

  class SnakeModel {
    var board: array2?<Tile?>
    ghost var tileSet: set<Tile>
    ghost var cells: Grid
    var head: Tile?
    var tail: seq<Tile>
    var direction: Direction
    var changedDirection: bool
    var timerExists: bool
    var timerEnabled: bool
    ghost var events: seq<Event>
    const persistence: Persistence.TextFilePersistence?

    /**
     * The board is a square array filled with distinct tiles, each knowing
     * its own coordinates; `tileSet` is exactly the tiles on the board.
     */
    ghost predicate Tiled()
      reads this`board, this`tileSet, board
    {
      && board != null
      && board.Length0 == board.Length1
      && (forall i, j :: 0 <= i < board.Length0 && 0 <= j < board.Length1 ==>
            board[i, j] != null && board[i, j] in tileSet && board[i, j].X == i && board[i, j].Y == j)
      && (forall t {:trigger t in tileSet} :: t in tileSet ==>
            0 <= t.X < board.Length0 && 0 <= t.Y < board.Length1 && board[t.X, t.Y] == t)
    }

    /** The mirror agrees with the board: one entry per tile, holding that tile's type. */
    ghost predicate Coupled()
      reads this`board, this`tileSet, this`cells, board, tileSet
    {
      && Tiled()
      && IsGrid(board.Length0, cells)
      && forall i, j {:trigger board[i, j]} :: 0 <= i < board.Length0 && 0 <= j < board.Length1 ==>
           cells[(i, j)] == board[i, j].Type
    }

    /** The engine state as a value of module Rules. */
    ghost function Abs(): Game
      reads this`board, this`cells, this`head, this`tail, this`direction, this`changedDirection
      reads this`timerEnabled, this`events
      requires board != null && head != null
    {
      Game(board.Length0, cells, (head.X, head.Y), Positions(tail), direction, changedDirection,
           timerEnabled, events)
    }

    /** A level is loaded: the board, the snake on it and a timer, with the invariant of Rules. */
    ghost predicate Ready()
      reads this, board, tileSet
    {
      Linked() && Inv(Abs())
    }

    /** The snake's tiles are tiles of the board, and the timer exists. */
    ghost predicate Linked()
      reads this`board, this`tileSet, this`cells, this`head, this`tail, this`timerExists, board, tileSet
    {
      && Coupled() && head != null && head in tileSet
      && (forall k :: 0 <= k < |tail| ==> tail[k] in tileSet)
      && timerExists
    }

    /** The object invariant: either nothing is loaded yet, or a level is. */
    ghost predicate Valid()
      reads this, board, tileSet
    {
      if board == null then !timerExists else Ready()
    }

    /** SnakeModel(dataAccess): no map and no timer until a level is loaded. */
    constructor (dataAccess: Persistence.TextFilePersistence?)
      ensures Valid() && board == null && !timerExists && persistence == dataAccess
      ensures events == [] && !changedDirection
    {
      persistence := dataAccess;
      board := null;
      head := null;
      tail := [];
      direction := Up;
      changedDirection := false;
      timerExists := false;
      timerEnabled := false;
      tileSet := {};
      cells := map[];
      events := [];
    }

    // ------------------------------------------------------------ getters

    /** Paused: the timer is stopped, or there is none yet. */
    function Paused(): (r: bool)
      reads this
      ensures !timerExists ==> r
      ensures timerExists ==> (r <==> !timerEnabled)
    {
      if timerExists then !timerEnabled else true
    }

    /** Score: segments gained since the spawn, never negative while a level is loaded. */
    function Score(): (r: int)
      reads this, board, tileSet
      requires Ready()
      ensures r == Rules.Score(Abs()) && r >= 0
    {
      |tail| - 4
    }

    /** MapSize: the side of the map. */
    function MapSize(): (r: int)
      reads this, board, tileSet
      requires Ready()
      ensures r == Abs().n && r >= 5
    {
      board.Length0
    }

    /** The indexer `this[x, y]`: the type of the tile at row `x`, column `y`. */
    function At(x: int, y: int): (r: TileType)
      reads this, board, tileSet
      requires Ready()
      requires 0 <= x < board.Length0 && 0 <= y < board.Length1
      ensures (x, y) in Abs().cells && r == Abs().cells[(x, y)]
      ensures r == Snake <==> (x, y) in Body(Abs())
    {
      board[x, y].Type
    }

    /** PreviewTile: the tile one step ahead of the head, or null off the map. */
    method PreviewTile() returns (destination: Tile?)
      requires Ready()
      ensures destination == null <==> Preview(Abs()).None?
      ensures destination != null ==>
        destination in tileSet && (destination.X, destination.Y) == Preview(Abs()).value
    {
      var x, y := head.X, head.Y;
      match direction {
        case Up => x := x - 1;
        case Down => x := x + 1;
        case Left => y := y - 1;
        case Right => y := y + 1;
      }
      if 0 <= x < board.Length0 && 0 <= y < board.Length1 {
        destination := board[x, y];
      } else {
        destination := null;
      }
    }

    // ------------------------------------------------------------ plumbing

    /** Writes a tile's type; on the board only that tile's cell changes. */
    method SetType(t: Tile, kind: TileType)
      requires Coupled() && t in tileSet
      modifies t, this`cells
      ensures Coupled() && t.Type == kind
      ensures cells == old(cells)[(t.X, t.Y) := kind]
    {
      t.Type := kind;
      cells := cells[(t.X, t.Y) := kind];
    }

    /** OnTileChanged: raises TileChanged with the tile's coordinates and current type. */
    method OnTileChanged(t: Tile)
      modifies this`events
      ensures events == old(events) + [TileChanged(t.X, t.Y, t.Type)]
    {
      events := events + [TileChanged(t.X, t.Y, t.Type)];
    }

    /** OnMapChanged: raises MapChanged with the new size. */
    method OnMapChanged(n: int)
      modifies this`events
      ensures events == old(events) + [MapChanged(n)]
    {
      events := events + [MapChanged(n)];
    }

    /** Pause: stops or starts the timer, if there is one; nothing else changes. */
    method Pause(pause: bool)
      modifies this`timerEnabled
      ensures timerEnabled == if timerExists then !pause else old(timerEnabled)
      ensures Paused() == if timerExists then pause else true
      ensures old(Valid()) ==> Valid()
      ensures old(Ready()) ==> Ready() && Abs() == Step(old(Abs()), Rules.Hold(pause))
    {
      if timerExists {
        timerEnabled := !pause;
      }
      if old(Ready()) {
        InvIgnoresClock(old(Abs()), timerEnabled, events);
      }
    }

    /** OnGameOver: the timer stops and GameOver carries the score. */
    method OnGameOver()
      requires Ready()
      modifies this`timerEnabled, this`events
      ensures Ready() && Abs() == Collide(old(Abs()))
      ensures Paused()
    {
      Pause(true);
      events := events + [GameOver(|tail| - 4)];
      InvIgnoresClock(old(Abs()), false, events);
    }

    // ------------------------------------------------------------ commands

    /**
     * The Direction setter: at most one change between two moves, and never
     * the reverse of the current direction.
     */
    method SetDirection(value: Direction)
      requires Valid()
      modifies this`direction, this`changedDirection
      ensures (direction, changedDirection) == Steer(old(direction), old(changedDirection), value)
      ensures Valid()
      ensures board != null ==> Abs() == Step(old(Abs()), Turn(value))
    {
      if !changedDirection
         && !((direction == Up && value == Down) || (direction == Down && value == Up)
              || (direction == Left && value == Right) || (direction == Right && value == Left)) {
        changedDirection := true;
        direction := value;
      }
      if board != null {
        InvIgnoresSteering(old(Abs()), direction, changedDirection);
      }
    }

    /**
     * The scan of SpawnFood: the Empty tiles of the board, row by row and
     * left to right within a row.
     */
    method EmptyTiles() returns (validTiles: seq<Tile>)
      requires Coupled()
      ensures Positions(validTiles) == Filter(ScanOrder(board.Length0), cells, {Empty})
      ensures forall t :: t in validTiles ==> t in tileSet
    {
      var n := board.Length0;
      validTiles := [];
      var i := 0;
      while i < n
        invariant 0 <= i <= n
        invariant Positions(validTiles) == ScanFilter(cells, {Empty}, n, i, 0)
        invariant forall t :: t in validTiles ==> t in tileSet
      {
        validTiles := ScanRow(i, validTiles);
        i := i + 1;
      }
      ScanFilterSpec(cells, {Empty}, n, n, 0);
      ScannedAll(n);
    }

    /** One row of the scan: the Empty tiles of row `i`, appended to `found`. */
    method ScanRow(i: nat, found: seq<Tile>) returns (validTiles: seq<Tile>)
      requires Coupled() && i < board.Length0
      requires Positions(found) == ScanFilter(cells, {Empty}, board.Length0, i, 0)
      requires forall t :: t in found ==> t in tileSet
      ensures Positions(validTiles) == ScanFilter(cells, {Empty}, board.Length0, i + 1, 0)
      ensures forall t :: t in validTiles ==> t in tileSet
    {
      var n := board.Length0;
      validTiles := found;
      var j := 0;
      while j < n
        invariant 0 <= j <= n
        invariant Positions(validTiles) == ScanFilter(cells, {Empty}, n, i, j)
        invariant forall t :: t in validTiles ==> t in tileSet
      {
        var t: Tile := board[i, j];
        assert (i, j) in cells && cells[(i, j)] == t.Type;
        if t.Type == Empty {
          PositionsSnoc(validTiles, t);
          validTiles := validTiles + [t];
        }
        j := j + 1;
      }
    }

    /**
     * SpawnFood: turns the Empty tile the random draw picks into Food;
     * nothing happens on a full board.
     */
    method SpawnFood(rand: nat)
      requires Ready()
      modifies tileSet, this`cells, this`events
      ensures Ready() && Abs() == Rules.SpawnFood(old(Abs()), rand)
    {
      ghost var g := Abs();
      var validTiles := EmptyTiles();
      assert Positions(validTiles) == FreeCells(g);
      if |validTiles| > 0 {
        var chosen := validTiles[rand % |validTiles|];
        ghost var p := (chosen.X, chosen.Y);
        assert p == FreeCells(g)[rand % |validTiles|];
        SetType(chosen, Food);
        OnTileChanged(chosen);
        assert cells == g.cells[p := Food] && events == g.log + [TileChanged(p.0, p.1, Food)];
      }
      assert Abs() == Rules.SpawnFood(g, rand);
      assert Linked();
      SpawnFoodKeepsInv(g, rand);
    }

    /**
     * MoveSnake: one tick. The gate is cleared; then the tile ahead decides:
     * off the map, Snake or Wall ends the game, Food grows the snake and
     * spawns a new food, Empty moves the snake and frees its oldest cell.
     */
    method MoveSnake(rand: nat)
      requires Ready()
      modifies this, tileSet
      ensures Ready() && board == old(board) && tileSet == old(tileSet)
      ensures Abs() == Move(old(Abs()), rand)
    {
      ghost var g := Abs();
      var destination := PreviewTile();
      changedDirection := false;
      InvIgnoresSteering(g, g.direction, false);
      assert Abs() == g.(changedDirection := false);
      if destination == null || destination.Type == Snake || destination.Type == Wall {
        OnGameOver();
      } else if destination.Type == Food {
        EatFood(destination, rand);
      } else {
        Advance(destination);
      }
    }

    /** The Food branch of MoveSnake. */
    method EatFood(destination: Tile, rand: nat)
      requires Ready() && destination in tileSet && destination.Type == Food
      modifies this`head, this`tail, this`cells, this`events, tileSet
      ensures Ready() && Abs() == Feed(old(Abs()), (destination.X, destination.Y), rand)
    {
      ghost var g := Abs();
      ghost var p := (destination.X, destination.Y);
      Enter(destination);
      SpawnFood(rand);
      assert head.Type == Snake;
      OnTileChanged(head);
      FeedKeepsInv(g, p, rand);
    }

    /** The Empty branch of MoveSnake. */
    method Advance(destination: Tile)
      requires Ready() && destination in tileSet && destination.Type == Empty
      modifies this`head, this`tail, this`cells, this`events, tileSet
      ensures Ready() && Abs() == Slide(old(Abs()), (destination.X, destination.Y))
    {
      ghost var g := Abs();
      ghost var p := (destination.X, destination.Y);
      Enter(destination);
      var removed := DropTail();
      ghost var g2 := Abs();
      assert g2 == Shrink(Grow(g, p));
      OnTileChanged(head);
      OnTileChanged(removed);
      assert events == g2.log + [TileChanged(p.0, p.1, Snake), TileChanged(g.tail[0].0, g.tail[0].1, Empty)];
      assert Abs() == g2.(log := events);
      SlideKeepsInv(g, p);
    }

    /** The head moves onto `destination`, and the old head joins the tail as its newest segment. */
    method Enter(destination: Tile)
      requires Ready() && destination in tileSet && destination.Type != Snake
      modifies this`head, this`tail, this`cells, destination
      ensures Ready() && Abs() == Grow(old(Abs()), (destination.X, destination.Y))
      ensures head == destination && head.Type == Snake
    {
      ghost var g := Abs();
      ghost var p := (destination.X, destination.Y);
      PositionsSnoc(tail, head);
      tail := tail + [head];
      head := destination;
      SetType(head, Snake);
      assert Abs() == Grow(g, p);
      GrowKeepsInv(g, p);
    }

    /** The oldest tail segment leaves the queue and its tile becomes Empty. */
    method DropTail() returns (removed: Tile)
      requires Ready() && |tail| >= 5
      modifies this`tail, this`cells, tail[0]
      ensures Ready() && Abs() == Shrink(old(Abs()))
      ensures (removed.X, removed.Y) == old(Abs()).tail[0] && removed.Type == Empty
      ensures head.Type == old(head.Type)
    {
      ghost var g := Abs();
      removed := tail[0];
      tail := tail[1..];
      SetType(removed, Empty);
      assert Positions(tail) == g.tail[1..];
      ShrinkKeepsInv(g);
    }

    // ------------------------------------------------------------ levels

    /**
     * The tiles of a new map filled in scan order up to row `i`, column `j`:
     * every tile placed so far is a distinct Empty tile knowing its place,
     * and `ts` holds exactly those tiles.
     */
    static ghost predicate FilledTo(b: array2<Tile?>, ts: set<Tile>, i: int, j: int)
      reads b, ts
    {
      && (forall x, y {:trigger b[x, y]} :: 0 <= x < b.Length0 && 0 <= y < b.Length1 && (x < i || (x == i && y < j)) ==>
            b[x, y] != null && b[x, y] in ts && b[x, y].X == x && b[x, y].Y == y && b[x, y].Type == Empty)
      && (forall t {:trigger t in ts} :: t in ts ==>
            0 <= t.X < b.Length0 && 0 <= t.Y < b.Length1 && (t.X < i || (t.X == i && t.Y < j)) && b[t.X, t.Y] == t)
    }

    /** `new Tile[n, n]` filled with `new Tile(i, j)` at every place, row by row. */
    static method NewMap(n: nat) returns (b: array2<Tile?>, ghost ts: set<Tile>)
      ensures fresh(b) && b.Length0 == n && b.Length1 == n
      ensures forall t :: t in ts ==> fresh(t)
      ensures FilledTo(b, ts, n, 0)
    {
      b := new Tile?[n, n];
      ts := {};
      var i := 0;
      while i < n
        invariant 0 <= i <= n
        invariant FilledTo(b, ts, i, 0)
        invariant forall t :: t in ts ==> fresh(t)
      {
        var j := 0;
        while j < n
          invariant 0 <= j <= n
          invariant FilledTo(b, ts, i, j)
          invariant forall t :: t in ts ==> fresh(t)
        {
          var t := new Tile(i, j);
          b[i, j] := t;
          ts := ts + {t};
          j := j + 1;
        }
        i := i + 1;
      }
    }

    /** The wall loop of NewGame: every listed cell becomes Wall, in order. */
    method PlaceWalls(walls: seq<Pos>)
      requires Coupled() && forall p :: p in walls ==> InBounds(board.Length0, p)
      modifies this`cells, tileSet
      ensures Coupled() && cells == Paint(old(cells), walls, Wall)
    {
      var k := 0;
      while k < |walls|
        invariant 0 <= k <= |walls|
        invariant Coupled() && cells == Paint(old(cells), walls[..k], Wall)
      {
        assert walls[k] in walls;
        PaintSnoc(old(cells), walls[..k], walls[k], Wall);
        assert walls[..k + 1] == walls[..k] + [walls[k]];
        SetType(board[walls[k].0, walls[k].1], Wall);
        k := k + 1;
      }
      assert walls[..k] == walls;
    }

    /**
     * The snake of NewGame and RestartLevel: the four tail tiles of the
     * middle row, oldest first, then the head two columns right of the
     * middle. RestartLevel raises TileChanged for each, NewGame does not.
     */
    method PutSnake(announce: bool)
      requires Coupled() && board.Length0 >= 5
      modifies this`head, this`tail, this`cells, this`events, this`direction, tileSet
      ensures Coupled() && head != null && head in tileSet && direction == Right
      ensures forall k :: 0 <= k < |tail| ==> tail[k] in tileSet
      ensures var m := board.Length0 / 2;
        Positions(tail) == SpawnTail(m) && (head.X, head.Y) == SpawnHead(m)
      ensures SnakeUpTo(cells, old(cells), board.Length0 / 2, board.Length0 / 2 + 3)
      ensures var m := board.Length0 / 2; var body := SpawnTail(m) + [SpawnHead(m)];
        events == old(events) + if announce then Notify(body, Snake) else []
    {
      var m := board.Length0 / 2;
      PutTail(m, announce);
      head := PlaceSegment(m, m + 2, announce, old(cells), old(events));
      direction := Right;
      RunSpawn(m);
    }

    /** The tail loop of the snake: (m, m - 2) up to (m, m + 1), oldest first. */
    method PutTail(m: int, announce: bool)
      requires Coupled() && 2 <= m && m + 2 < board.Length0
      modifies this`tail, this`cells, this`events, tileSet
      ensures Coupled() && SnakeUpTo(cells, old(cells), m, m + 2)
      ensures forall k :: 0 <= k < |tail| ==> tail[k] in tileSet
      ensures Positions(tail) == Run(m, m + 2)
      ensures events == old(events) + if announce then Notify(Run(m, m + 2), Snake) else []
    {
      tail := [];
      var i := m - 2;
      while i < m + 2
        invariant m - 2 <= i <= m + 2
        invariant Coupled() && SnakeUpTo(cells, old(cells), m, i)
        invariant forall k :: 0 <= k < |tail| ==> tail[k] in tileSet
        invariant Positions(tail) == Run(m, i)
        invariant events == old(events) + if announce then Notify(Run(m, i), Snake) else []
      {
        var t := PlaceSegment(m, i, announce, old(cells), old(events));
        PositionsSnoc(tail, t);
        tail := tail + [t];
        i := i + 1;
      }
    }

    /** One cell of the new snake: the tile at (m, i) becomes Snake, announced or not. */
    method PlaceSegment(m: int, i: int, announce: bool, ghost c0: Grid, ghost e0: seq<Event>) returns (t: Tile)
      requires Coupled() && 0 <= m < board.Length0 && 0 <= m - 2 <= i < board.Length0
      requires SnakeUpTo(cells, c0, m, i)
      requires events == e0 + if announce then Notify(Run(m, i), Snake) else []
      modifies this`cells, this`events, tileSet
      ensures Coupled() && SnakeUpTo(cells, c0, m, i + 1)
      ensures events == e0 + if announce then Notify(Run(m, i + 1), Snake) else []
      ensures t in tileSet && t.X == m && t.Y == i
    {
      t := board[m, i];
      SetType(t, Snake);
      if announce {
        NotifySnoc(Run(m, i), (m, i), Snake);
        SnocAssoc(e0, Notify(Run(m, i), Snake), TileChanged(m, i, Snake));
        OnTileChanged(t);
      }
    }

    /** `c` is `c0` with the cells of row `m` from column `m - 2` up to `j - 1` made Snake. */
    static ghost predicate SnakeUpTo(c: Grid, c0: Grid, m: int, j: int) {
      && (forall p {:trigger p in c} :: p in c <==> p in c0)
      && forall p {:trigger c[p]} :: p in c ==> c[p] == if p.0 == m && m - 2 <= p.1 < j then Snake else c0[p]
    }

    /** Painting the spawn cells Snake gives the map SnakeUpTo describes. */
    static lemma PaintSpawn(n: int, c0: Grid, c: Grid)
      requires n >= 5 && IsGrid(n, c0)
      requires SnakeUpTo(c, c0, n / 2, n / 2 + 3)
      ensures c == Paint(c0, SpawnTail(n / 2) + [SpawnHead(n / 2)], Snake)
    {
      var m := n / 2;
      var body := SpawnTail(m) + [SpawnHead(m)];
      var r := Paint(c0, body, Snake);
      forall p | p in c ensures p in r && c[p] == r[p] {
        if p.0 == m && m - 2 <= p.1 < m + 3 {
          assert p in body;
        }
      }
      forall p | p in r ensures p in c {
        if p in body {
          assert InBounds(n, p);
        }
      }
      SameEntries(c, r);
    }

    /** The closing loop of NewGame: TileChanged for every tile of the map, in scan order. */
    method AnnounceAll()
      requires Coupled()
      modifies this`events
      ensures events == old(events) + Announce(cells, ScanOrder(board.Length0))
    {
      var i := 0;
      while i < board.Length0
        invariant 0 <= i <= board.Length0
        invariant events == old(events) + AnnounceLog(cells, board.Length0, i, 0)
      {
        AnnounceRow(i, old(events));
        i := i + 1;
      }
      AnnounceLogSpec(cells, board.Length0, board.Length0, 0);
      ScannedAll(board.Length0);
    }

    /** One row of the closing loop of NewGame. */
    method AnnounceRow(i: nat, ghost base: seq<Event>)
      requires Coupled() && i < board.Length0
      requires events == base + AnnounceLog(cells, board.Length0, i, 0)
      modifies this`events
      ensures events == base + AnnounceLog(cells, board.Length0, i + 1, 0)
    {
      var n := board.Length0;
      var j := 0;
      while j < n
        invariant 0 <= j <= n
        invariant events == base + AnnounceLog(cells, n, i, j)
      {
        var t: Tile := board[i, j];
        assert cells[(i, j)] == t.Type;
        SnocAssoc(base, AnnounceLog(cells, n, i, j), TileChanged(i, j, t.Type));
        OnTileChanged(t);
        j := j + 1;
      }
    }

    /**
     * The clearing loop of RestartLevel: every Snake and Food tile becomes
     * Empty and is announced, in scan order; walls and Empty tiles stay.
     */
    method ClearStale()
      requires Coupled()
      modifies this`cells, this`events, tileSet
      ensures Coupled()
      ensures forall p :: p in cells ==> cells[p] == if old(cells)[p] == Wall then Wall else Empty
      ensures events == old(events) + Notify(Filter(ScanOrder(board.Length0), old(cells), {Snake, Food}), Empty)
    {
      var i := 0;
      while i < board.Length0
        invariant 0 <= i <= board.Length0
        invariant Coupled()
        invariant ClearedUpTo(cells, old(cells), i, 0)
        invariant events == old(events) + ClearLog(old(cells), board.Length0, i, 0)
      {
        ClearRow(i, old(cells), old(events));
        i := i + 1;
      }
      ClearLogSpec(old(cells), board.Length0, board.Length0, 0);
      ScannedAll(board.Length0);
    }

    /**
     * `c` is `c0` with the cells before row `i`, column `j` in scan order
     * cleared: Snake and Food became Empty.
     */
    static ghost predicate ClearedUpTo(c: Grid, c0: Grid, i: int, j: int) {
      && (forall p {:trigger p in c} :: p in c <==> p in c0)
      && forall p {:trigger c[p]} :: p in c ==>
           c[p] == if p.0 < i || (p.0 == i && p.1 < j) then (if c0[p] == Wall then Wall else Empty) else c0[p]
    }

    /** One row of the clearing loop of RestartLevel. */
    method ClearRow(i: nat, ghost c0: Grid, ghost e0: seq<Event>)
      requires Coupled() && i < board.Length0
      requires ClearedUpTo(cells, c0, i, 0)
      requires events == e0 + ClearLog(c0, board.Length0, i, 0)
      modifies this`cells, this`events, tileSet
      ensures Coupled() && ClearedUpTo(cells, c0, i + 1, 0)
      ensures events == e0 + ClearLog(c0, board.Length0, i + 1, 0)
    {
      var n := board.Length0;
      var j := 0;
      while j < n
        invariant 0 <= j <= n
        invariant Coupled() && ClearedUpTo(cells, c0, i, j)
        invariant events == e0 + ClearLog(c0, n, i, j)
      {
        ClearCell(i, j, c0, e0);
        j := j + 1;
      }
    }

    /** One tile of the clearing loop: a Snake or Food tile becomes Empty and is announced. */
    method ClearCell(i: nat, j: nat, ghost c0: Grid, ghost e0: seq<Event>)
      requires Coupled() && i < board.Length0 && j < board.Length0
      requires ClearedUpTo(cells, c0, i, j)
      requires events == e0 + ClearLog(c0, board.Length0, i, j)
      modifies this`cells, this`events, tileSet
      ensures Coupled() && ClearedUpTo(cells, c0, i, j + 1)
      ensures events == e0 + ClearLog(c0, board.Length0, i, j + 1)
    {
      var t: Tile := board[i, j];
      assert (i, j) in c0 && c0[(i, j)] == cells[(i, j)] == t.Type;
      if t.Type == Snake || t.Type == Food {
        SnocAssoc(e0, ClearLog(c0, board.Length0, i, j), TileChanged(i, j, Empty));
        SetType(t, Empty);
        OnTileChanged(t);
      }
    }

    /**
     * NewGame: stops the old timer, creates a stopped new one, builds a
     * fresh map of Empty tiles, places the walls and the snake, spawns the
     * first food, announces every tile and starts the timer.
     */
    method NewGame(n: nat, walls: seq<Pos>, rand: nat)
      requires n >= 5 && forall p :: p in walls ==> InBounds(n, p)
      modifies this
      ensures Ready() && fresh(board)
      ensures Abs() == Rules.NewGame(n, walls, old(changedDirection), old(events), rand)
    {
      BuildLevel(n, walls);
      LayoutInv(n, walls, changedDirection, false, events);
      SpawnFood(rand);
      StartLevel();
    }

    /** The end of NewGame: every tile announced in scan order, then the timer started. */
    method StartLevel()
      requires Ready()
      modifies this`events, this`timerEnabled
      ensures Ready()
      ensures Abs() == old(Abs()).(running := true, log := old(events) + Announce(cells, ScanOrder(board.Length0)))
    {
      ghost var g := Abs();
      AnnounceAll();
      InvIgnoresClock(g, false, events);
      Pause(false);
    }

    /** NewGame up to the food: a stopped timer, the new map, its walls and the snake facing Right. */
    method BuildLevel(n: nat, walls: seq<Pos>)
      requires n >= 5 && forall p :: p in walls ==> InBounds(n, p)
      modifies this
      ensures Linked() && fresh(board) && (forall t :: t in tileSet ==> fresh(t)) && !timerEnabled
      ensures Abs() == Game(n, Layout(n, walls), SpawnHead(n / 2), SpawnTail(n / 2), Right,
                            old(changedDirection), false, old(events) + [MapChanged(n)])
    {
      InstallMap(n);
      PlaceWalls(walls);
      ghost var walled := cells;
      PutSnake(false);
      LayoutFrom(n, walls, walled, cells);
    }

    /** The start of NewGame: the old timer stopped, a stopped new timer, a fresh map of Empty tiles. */
    method InstallMap(n: nat)
      modifies this
      ensures Coupled() && fresh(board) && board.Length0 == n && (forall t :: t in tileSet ==> fresh(t))
      ensures cells == Blank(n) && events == old(events) + [MapChanged(n)]
      ensures timerExists && !timerEnabled && changedDirection == old(changedDirection)
    {
      Pause(true);
      timerExists, timerEnabled := true, false;
      var b: array2<Tile?>;
      ghost var ts: set<Tile>;
      b, ts := NewMap(n);
      board, tileSet, cells := b, ts, Blank(n);
      OnMapChanged(n);
    }

    /** The walled map with the spawn cells made Snake is the layout of a new game. */
    static lemma LayoutFrom(n: nat, walls: seq<Pos>, walled: Grid, c: Grid)
      requires n >= 5 && forall p :: p in walls ==> InBounds(n, p)
      requires walled == Paint(Blank(n), walls, Wall)
      requires SnakeUpTo(c, walled, n / 2, n / 2 + 3)
      ensures c == Layout(n, walls)
    {
      assert IsGrid(n, walled);
      PaintSpawn(n, walled, c);
    }

    /**
     * RestartLevel: on the same map, clears every Snake and Food tile,
     * spawns the snake again facing Right, spawns a food and starts the timer.
     */
    method RestartLevel(rand: nat)
      requires Ready()
      modifies this, tileSet
      ensures Ready() && board == old(board) && tileSet == old(tileSet)
      ensures Abs() == Restart(old(Abs()), rand)
    {
      ClearAndRespawn();
      SpawnFood(rand);
      Pause(false);
    }

    /** RestartLevel up to the food, as Respawn of module Rules. */
    method ClearAndRespawn()
      requires Ready()
      modifies this`cells, this`events, this`head, this`tail, this`direction, tileSet
      ensures Ready() && Abs() == Rules.Respawn(old(Abs()))
    {
      ghost var g := Abs();
      RespawnSnake();
      RespawnIs(g, cells, events);
      RespawnInv(g);
    }

    /** RestartLevel up to the food: the map cleared and the snake spawned again facing Right. */
    method RespawnSnake()
      requires Coupled() && board.Length0 >= 5
      modifies this`cells, this`events, this`head, this`tail, this`direction, tileSet
      ensures Coupled() && head != null && head in tileSet && direction == Right
      ensures forall k :: 0 <= k < |tail| ==> tail[k] in tileSet
      ensures var m := board.Length0 / 2;
        Positions(tail) == SpawnTail(m) && (head.X, head.Y) == SpawnHead(m)
      ensures SpawnedOn(cells, old(cells), board.Length0 / 2)
      ensures var m := board.Length0 / 2;
        events == old(events) + Notify(Filter(ScanOrder(board.Length0), old(cells), {Snake, Food}), Empty)
                  + Notify(SpawnTail(m) + [SpawnHead(m)], Snake)
    {
      ghost var c0 := cells;
      ClearStale();
      ghost var cleared := cells;
      PutSnake(true);
      RespawnCells(c0, cleared, cells, board.Length0 / 2);
    }

    /** `c` is `c0` cleared down to its walls, with the spawn cells of a map whose middle is `m` made Snake. */
    static ghost predicate SpawnedOn(c: Grid, c0: Grid, m: int) {
      && (forall p {:trigger p in c} :: p in c <==> p in c0)
      && forall p {:trigger c[p]} :: p in c ==>
           c[p] == if p.0 == m && m - 2 <= p.1 < m + 3 then Snake else if c0[p] == Wall then Wall else Empty
    }

    /** Clearing and then placing the snake gives the map SpawnedOn describes. */
    static lemma RespawnCells(c0: Grid, cleared: Grid, c: Grid, m: int)
      requires forall p :: p in cleared <==> p in c0
      requires forall p :: p in cleared ==> cleared[p] == if c0[p] == Wall then Wall else Empty
      requires SnakeUpTo(c, cleared, m, m + 3)
      ensures SpawnedOn(c, c0, m)
    {
    }

    /** The map SpawnedOn describes and the log of RestartLevel's loops make up Respawn of module Rules. */
    static lemma RespawnIs(g: Game, c: Grid, log: seq<Event>)
      requires g.n >= 5 && IsGrid(g.n, g.cells)
      requires SpawnedOn(c, g.cells, g.n / 2)
      requires var m := g.n / 2;
        log == g.log + Notify(Stale(g), Empty) + Notify(SpawnTail(m) + [SpawnHead(m)], Snake)
      ensures var m := g.n / 2;
        Game(g.n, c, SpawnHead(m), SpawnTail(m), Right, g.changedDirection, g.running, log) == Respawn(g)
    {
      var cleared := Cleared(g);
      assert SnakeUpTo(c, cleared, g.n / 2, g.n / 2 + 3);
      PaintSpawn(g.n, cleared, c);
    }

    /**
     * LoadLevel: reads a level through the persistence and starts a new
     * game on it. Without a persistence nothing happens; when reading fails
     * the fault is passed on and the engine is left as it was.
     */
    method LoadLevel(path: Persistence.Source, rand: nat) returns (fault: Option<Persistence.Fault>)
      requires Valid()
      requires persistence != null ==> Persistence.WallsInside(path)
      modifies this, persistence
      ensures Valid()
      ensures persistence != null && fault == None ==> Ready() && fresh(board)
      ensures persistence == null ==> fault == None && unchanged(this)
      ensures persistence != null ==> (fault == None <==> Persistence.Load(path).Success?)
      ensures fault.Some? ==> Persistence.Load(path) == Failure(fault.value)
      ensures fault.Some? ==> board == old(board) && tileSet == old(tileSet) && unchanged(this)
      ensures persistence != null && fault == None ==>
        var level := Persistence.Load(path).value;
        Abs() == Rules.NewGame(level.size, level.walls, old(changedDirection), old(events), rand)
    {
      if persistence == null {
        return None;
      }
      fault := persistence.LoadLevel(path);
      if fault.Some? {
        return;
      }
      NewGame(persistence.MapSize, persistence.Walls, rand);
    }

    /** OnTick: one elapsed interval of the timer moves the snake while the timer runs. */
    method Tick(rand: nat)
      requires Valid()
      modifies this, tileSet
      ensures Valid() && board == old(board) && tileSet == old(tileSet)
      ensures board != null ==> Abs() == Step(old(Abs()), Rules.Tick(rand))
      ensures board == null ==> unchanged(this)
    {
      if timerExists && timerEnabled {
        MoveSnake(rand);
      }
    }
  }
}
