# Snake engine, modelled and verified in Dafny

This project models the game engine of a Snake game written in C#: the
`SnakeModel` class, the `Tile` objects of its map and the text-file level
reader `TextFilePersistence`. The player steers a snake around a square map
with walls. On each timer tick the snake steps onto the tile ahead. Food
makes it grow and places a new food somewhere else. An empty tile moves it
along and frees its oldest segment. A wall, the map's edge or its own body
ends the game, and the score is the number of segments gained.

The project has four modules:

- `Tiles` (tiles.dfy): the tile type tag and the `Tile` class, whose type is
  written in place.
- `Rules` (rules.dfy): the engine as values. A `Game` holds the map as a map
  from coordinates to tile types, the head, the tail queue (oldest first), the
  direction, the one-change-per-move gate, whether the timer runs, and the log
  of notifications raised. It has one function per operation (`Steer`, `Move`,
  `SpawnFood`, `NewGame`, `Restart`, ...). Its lemmas state what the
  operations promise. The main one is the invariant `Inv`: the snake's cells
  are distinct cells of the map, and they are exactly the cells tagged Snake.
- `Model` (model.dfy): the class `SnakeModel` as the source keeps it:
  - an `array2` of `Tile` objects, a head reference and a tail sequence of
    tile references;
  - two timer flags;
  - a ghost mirror of the tile types and a ghost log of the events raised.

  Each method is proved to change the abstract state `Abs()` exactly as the
  matching function of `Rules` does, and to keep `Inv`. The loops of the
  source (the map scans of `SpawnFood`, `RestartLevel` and `NewGame`, the
  wall and snake loops) are `while` loops with their invariants.
- `Persistence` (persistence.dfy) models the level reader:
  - `String.Split()` on white space;
  - `int.Parse` on 32-bit integers;
  - the parse of a level file;
  - the class `TextFilePersistence`, whose `LoadLevel` fills `Walls` pair by
    pair as the source's loop does.

  Its lemmas prove several rejections: a null path, a size below six, a
  dangling coordinate, a non-integer token and a trailing white-space
  character. They also prove that writing a level out and loading it back
  gives the level again.

Choices that follow the code:

- Neither `NewGame` nor `RestartLevel` clears the direction gate; only a move
  does.
- After a game over the timer is stopped, but `Pause(false)` starts it again,
  and the model follows the code.
- A failed `LoadLevel` leaves the engine untouched. The reader itself keeps
  what it had read up to the failure:
  - `Walls` is emptied at the start and then filled pair by pair;
  - `MapSize` is set once the first token parses.
- `r.Next(0, count)` is modelled as a draw `rand` taken modulo `count`.

## Model

| member | source | states |
|---|---|---|
| Tiles.Tile.constructor | eva21/Snake/Snake.Model/Tile.cs:28-33 | a new tile has the given coordinates and is Empty |
| Model.SnakeModel.constructor | eva21/Snake/Snake.Model/SnakeModel.cs:131-133 | only the persistence is set: no map, no timer, nothing raised, the object invariant holds |
| Model.SnakeModel.PreviewTile | eva21/Snake/Snake.Model/SnakeModel.cs:33-52 | the tile one step ahead in the current direction, null exactly when that step leaves the map (the source's caught index exception) |
| Model.SnakeModel.Paused | eva21/Snake/Snake.Model/SnakeModel.cs:61-68 | paused when there is no timer, otherwise exactly when the timer is stopped |
| Model.SnakeModel.SetDirection | eva21/Snake/Snake.Model/SnakeModel.cs:79-91 | the new direction and gate are `Steer`: a request is ignored after an accepted change or when it reverses the direction, otherwise it is taken and closes the gate; the invariant is kept |
| Model.SnakeModel.MapSize | eva21/Snake/Snake.Model/SnakeModel.cs:96 | the side of the loaded map, at least five |
| Model.SnakeModel.Score | eva21/Snake/Snake.Model/SnakeModel.cs:101 | the tail length minus four, never negative while a level is loaded |
| Model.SnakeModel.At | eva21/Snake/Snake.Model/SnakeModel.cs:109-113 | the indexer gives the type of the tile at (x, y), and it is Snake exactly when the cell is part of the snake |
| Model.SnakeModel.Pause | eva21/Snake/Snake.Model/SnakeModel.cs:143-146 | stops or starts the timer if one exists, changes nothing else, and keeps the invariant |
| Model.SnakeModel.RestartLevel | eva21/Snake/Snake.Model/SnakeModel.cs:151-176 | the new state is `Rules.Restart` of the old one on the same board and tiles, and the invariant holds |
| Model.SnakeModel.ClearAndRespawn | eva21/Snake/Snake.Model/SnakeModel.cs:152-171 | clearing and re-spawning give `Rules.Respawn` of the old state and keep the invariant |
| Model.SnakeModel.RespawnSnake | eva21/Snake/Snake.Model/SnakeModel.cs:152-171 | every cell ends cleared down to its walls except the five spawn cells, which are Snake; head, tail and direction are the spawn ones; the log gains the clearing events in scan order, then the five snake events |
| Model.SnakeModel.ClearStale | eva21/Snake/Snake.Model/SnakeModel.cs:153-158 | every Snake or Food tile becomes Empty and walls stay; one Empty event per cleared tile, in the order of `foreach` over the map |
| Model.SnakeModel.ClearCell | eva21/Snake/Snake.Model/SnakeModel.cs:154-157 | one tile of the clearing loop is cleared and announced exactly when it was Snake or Food |
| Model.SnakeModel.RespawnIs | eva21/Snake/Snake.Model/SnakeModel.cs:152-171 | the cleared map with the spawn cells painted Snake, with the loops' events, is `Rules.Respawn` |
| Model.SnakeModel.LoadLevel | eva21/Snake/Snake.Model/SnakeModel.cs:182-190 | no persistence: nothing changes; a failed read passes its fault on and leaves the engine unchanged; a successful read starts `Rules.NewGame` on the level read |
| Model.SnakeModel.NewGame | eva21/Snake/Snake.Model/SnakeModel.cs:201-236 | a fresh board whose state is `Rules.NewGame`: the walls, the spawned snake facing Right, a food (exactly one by NewGameFood), every tile announced, the timer running; the invariant holds |
| Model.SnakeModel.InstallMap | eva21/Snake/Snake.Model/SnakeModel.cs:203-214 | the old timer is stopped, a stopped timer exists, and the fresh map is all Empty; MapChanged(n) is raised |
| Model.SnakeModel.NewMap | eva21/Snake/Snake.Model/SnakeModel.cs:208-213 | an n by n array holding a distinct new Empty tile at every place, each knowing its coordinates |
| Model.SnakeModel.PlaceWalls | eva21/Snake/Snake.Model/SnakeModel.cs:216-218 | the listed cells become Wall, in order, and nothing else changes |
| Model.SnakeModel.PutSnake | eva21/Snake/Snake.Model/SnakeModel.cs:220-228 | the tail is (m, m-2) .. (m, m+1), oldest first, the head is (m, m+2) and the direction is Right; only those five cells change, to Snake; each is announced when RestartLevel places it |
| Model.SnakeModel.PutTail | eva21/Snake/Snake.Model/SnakeModel.cs:222-225 | the four tail tiles of row m are made Snake and queued in order |
| Model.SnakeModel.BuildLevel | eva21/Snake/Snake.Model/SnakeModel.cs:203-228 | before the food, the state is the layout of the walls and the spawned snake, with the timer stopped and MapChanged raised |
| Model.SnakeModel.LayoutFrom | eva21/Snake/Snake.Model/SnakeModel.cs:216-227 | the walled map with the spawn cells made Snake is `Rules.Layout` |
| Model.SnakeModel.PaintSpawn | eva21/Snake/Snake.Model/SnakeModel.cs:222-227 | a map that differs from `c0` only in the five spawn cells, now Snake, is `c0` painted with the snake's body |
| Model.SnakeModel.StartLevel | eva21/Snake/Snake.Model/SnakeModel.cs:231-235 | every tile is announced with its type in scan order, then the timer runs; nothing else changes |
| Model.SnakeModel.AnnounceAll | eva21/Snake/Snake.Model/SnakeModel.cs:231-233 | the log gains one TileChanged per tile, in the order of `foreach` over the map |
| Model.SnakeModel.MoveSnake | eva21/Snake/Snake.Model/SnakeModel.cs:241-265 | the new state is `Rules.Move` of the old one on the same board and tiles, and the invariant holds |
| Model.SnakeModel.EatFood | eva21/Snake/Snake.Model/SnakeModel.cs:248-254 | the Food branch is `Rules.Feed`: grow onto the food, spawn a food, then announce the head |
| Model.SnakeModel.Advance | eva21/Snake/Snake.Model/SnakeModel.cs:255-264 | the Empty branch is `Rules.Slide`: grow onto the tile, free the oldest segment, then announce both |
| Model.SnakeModel.Enter | eva21/Snake/Snake.Model/SnakeModel.cs:250-252 | the old head is queued on the tail and the destination becomes the Snake head |
| Model.SnakeModel.DropTail | eva21/Snake/Snake.Model/SnakeModel.cs:260-261 | the oldest tail tile leaves the queue and becomes Empty |
| Model.SnakeModel.SpawnFood | eva21/Snake/Snake.Model/SnakeModel.cs:270-284 | the new state is `Rules.SpawnFood`: the drawn Empty tile becomes Food and is announced, or nothing happens on a full board; the invariant is kept |
| Model.SnakeModel.EmptyTiles | eva21/Snake/Snake.Model/SnakeModel.cs:272-276 | the list holds the Empty tiles of the board in the order of `foreach` over the map |
| Model.ScanFilterSpec | eva21/Snake/Snake.Model/SnakeModel.cs:273-276 | collecting cell by cell picks the same cells, in the same order, as filtering the scan |
| Model.ScannedAll | eva21/Snake/Snake.Model/SnakeModel.cs:273 | row by row, then column by column, the scan is `Rules.ScanOrder`: the order `foreach` visits a `Tile[,]` |
| Model.ClearLogSpec | eva21/Snake/Snake.Model/SnakeModel.cs:153-158 | the clearing loop's events are one Empty event per Snake or Food cell passed, in scan order |
| Model.AnnounceLogSpec | eva21/Snake/Snake.Model/SnakeModel.cs:231-233 | the closing loop's events are one event per cell passed, carrying that cell's type |
| Model.SnakeModel.OnMapChanged | eva21/Snake/Snake.Model/SnakeModel.cs:294 | MapChanged with the new size is raised |
| Model.SnakeModel.OnGameOver | eva21/Snake/Snake.Model/SnakeModel.cs:299-302 | the state is `Rules.Collide`: the timer stops and GameOver carries the score; the game is paused |
| Model.SnakeModel.OnTileChanged | eva21/Snake/Snake.Model/SnakeModel.cs:308 | TileChanged with the tile's coordinates and current type is raised |
| Model.SnakeModel.Tick | eva21/Snake/Snake.Model/SnakeModel.cs:316-318 | an elapsed interval moves the snake when the timer runs, and does nothing otherwise |
| Rules.Steer | eva21/Snake/Snake.Model/SnakeModel.cs:79-91 | the result never reverses the direction; a closed gate or a reversal leaves everything as it was; any other request is taken and closes the gate |
| Rules.Score | eva21/Snake/Snake.Model/SnakeModel.cs:101 | the score is the snake's length less the five cells it starts with |
| Rules.Preview | eva21/Snake/Snake.Model/SnakeModel.cs:33-52 | a cell exactly when the cell one step ahead in the current direction is on the map (the source's caught index exception gives null otherwise); that cell is next to the head |
| Rules.Collide | eva21/Snake/Snake.Model/SnakeModel.cs:299-302 | only the timer and the log change: the timer stops and GameOver carries the score |
| Rules.OneTurnPerMove | eva21/Snake/Snake.Model/SnakeModel.cs:79-91 | between two moves, only the first request that is not a reversal takes effect |
| Rules.GateHolds | eva21/Snake/Snake.Model/SnakeModel.cs:80 | once the gate is closed, no run of requests changes the direction |
| Rules.InvIgnoresSteering | eva21/Snake/Snake.Model/SnakeModel.cs:79-91 | steering keeps the invariant |
| Rules.InvIgnoresClock | eva21/Snake/Snake.Model/SnakeModel.cs:143-146 | starting or stopping the timer, and raising events, keeps the invariant |
| Rules.Move | eva21/Snake/Snake.Model/SnakeModel.cs:241-265 | a move clears the gate, keeps the direction and keeps the snake on the map |
| Rules.MoveKeepsInv | eva21/Snake/Snake.Model/SnakeModel.cs:241-265 | every move keeps the invariant |
| Rules.MoveCollision | eva21/Snake/Snake.Model/SnakeModel.cs:245-247 | off the map, into a wall or into the snake: the map and snake are unchanged, the timer stops, GameOver(tail length - 4) is raised |
| Rules.BitingTheTailEndsTheGame | eva21/Snake/Snake.Model/SnakeModel.cs:245 | stepping onto the oldest tail cell is a collision, although that cell would be freed by the move |
| Rules.MoveEat | eva21/Snake/Snake.Model/SnakeModel.cs:248-254 | onto food: the food cell becomes the head, the old head is queued, the score rises by one, and no other occupied cell changes |
| Rules.MoveEatSpawnsFood | eva21/Snake/Snake.Model/SnakeModel.cs:248-254 | onto food: a cell that was Empty, if any, gets the new food and the log gains that food and then the head; with no Empty cell only the head changes and is announced |
| Rules.MoveStep | eva21/Snake/Snake.Model/SnakeModel.cs:255-264 | onto an Empty cell: same length and score, the oldest cell becomes Empty, and exactly those two events are raised |
| Rules.MoveKeepsWalls | eva21/Snake/Snake.Model/SnakeModel.cs:241-265 | a move never adds or removes a wall |
| Rules.Grow | eva21/Snake/Snake.Model/SnakeModel.cs:250-252 | the body gains the new head at its end |
| Rules.GrowKeepsInv | eva21/Snake/Snake.Model/SnakeModel.cs:250-252 | growing onto a cell that is not Snake keeps the invariant |
| Rules.Feed | eva21/Snake/Snake.Model/SnakeModel.cs:248-254 | the body gains the food cell at its end |
| Rules.FeedKeepsInv | eva21/Snake/Snake.Model/SnakeModel.cs:248-254 | eating keeps the invariant |
| Rules.Shrink | eva21/Snake/Snake.Model/SnakeModel.cs:260-261 | the body loses its oldest cell |
| Rules.ShrinkKeepsInv | eva21/Snake/Snake.Model/SnakeModel.cs:260-261 | dequeuing with at least five tail segments keeps the invariant |
| Rules.Slide | eva21/Snake/Snake.Model/SnakeModel.cs:255-264 | the body drops its oldest cell and gains the new head |
| Rules.SlideKeepsInv | eva21/Snake/Snake.Model/SnakeModel.cs:255-264 | an ordinary move keeps the invariant |
| Rules.SpawnFood | eva21/Snake/Snake.Model/SnakeModel.cs:270-284 | only the map and log change, and a changed cell went from Empty to Food |
| Rules.SpawnFoodSpec | eva21/Snake/Snake.Model/SnakeModel.cs:270-284 | a full board is left as it is; otherwise exactly one Empty cell becomes Food and is announced |
| Rules.SpawnFoodKeepsInv | eva21/Snake/Snake.Model/SnakeModel.cs:270-284 | placing food keeps the invariant and every occupied cell |
| Rules.SpawnFoodKeepsWalls | eva21/Snake/Snake.Model/SnakeModel.cs:279 | placing food never touches a wall |
| Rules.SpawnFoodSameMap | eva21/Snake/Snake.Model/SnakeModel.cs:270-284 | the food placed depends only on the map and the draw |
| Rules.HaltedIgnoresTicks | eva21/Snake/Snake.Model/SnakeModel.cs:316-318 | with the timer stopped, any number of ticks changes nothing |
| Rules.GameOverHalts | eva21/Snake/Snake.Model/SnakeModel.cs:299-302 | after a collision no later tick changes the state |
| Rules.PlayKeepsInv | eva21/Snake/Snake.Model/SnakeModel.cs:241-265 | any run of steering, pausing and ticks keeps the invariant |
| Rules.PlayKeepsWalls | eva21/Snake/Snake.Model/SnakeModel.cs:241-265 | any run of steering, pausing and ticks keeps the walls |
| Rules.SpawnFits | eva21/Snake/Snake.Model/SnakeModel.cs:220-227 | on a map of side at least five the five spawn cells are distinct and on the map |
| Rules.LayoutCells | eva21/Snake/Snake.Model/SnakeModel.cs:216-227 | the spawn cells are Snake; every other cell is Wall when listed and Empty otherwise |
| Rules.Layout | eva21/Snake/Snake.Model/SnakeModel.cs:208-228 | a full n by n map; its cells are given by LayoutCells |
| Rules.FedLayout | eva21/Snake/Snake.Model/SnakeModel.cs:203-230 | the board after the first food has side n and a full map; FedLayoutFacts, FedLayoutCells and NewGameFood give its snake and cells |
| Rules.NewGame | eva21/Snake/Snake.Model/SnakeModel.cs:201-236 | a new game has side n, a full map and a running timer; NewGameSpawn, NewGameFood and NewGameInv give the rest |
| Rules.NewGameFood | eva21/Snake/Snake.Model/SnakeModel.cs:229-230 | when the layout has an Empty cell, exactly one such cell becomes Food and no other cell changes; otherwise the board is the layout |
| Rules.LayoutInv | eva21/Snake/Snake.Model/SnakeModel.cs:216-228 | the new layout satisfies the invariant |
| Rules.FedLayoutFacts | eva21/Snake/Snake.Model/SnakeModel.cs:220-230 | after the first food the invariant holds and the snake is the spawned one |
| Rules.FedLayoutCells | eva21/Snake/Snake.Model/SnakeModel.cs:216-230 | after the first food, walls off the snake stay walls and every other free cell is Empty or Food |
| Rules.NewGameKeepsFedLayout | eva21/Snake/Snake.Model/SnakeModel.cs:231-235 | announcing the tiles and starting the timer change only the log and the timer |
| Rules.NewGameInv | eva21/Snake/Snake.Model/SnakeModel.cs:201-236 | a new game satisfies the invariant |
| Rules.NewGameSpawn | eva21/Snake/Snake.Model/SnakeModel.cs:220-235 | a new game has the spawn tail and head, faces Right, scores 0, runs, keeps the gate, and keeps its walls off the snake |
| Rules.NewGameWalls | eva21/Snake/Snake.Model/SnakeModel.cs:216-218 | a new game's walls are those of the layout |
| Rules.Cleared | eva21/Snake/Snake.Model/SnakeModel.cs:153-158 | after clearing only the walls remain; every other cell is Empty |
| Rules.Stale | eva21/Snake/Snake.Model/SnakeModel.cs:153-154 | the cells the clearing loop empties are exactly the Snake and Food cells on the map |
| Rules.ClearedKeepsOnlyWalls | eva21/Snake/Snake.Model/SnakeModel.cs:153-158 | painting the stale cells Empty leaves walls and empties the rest |
| Rules.Respawn | eva21/Snake/Snake.Model/SnakeModel.cs:151-171 | the restarted game keeps the map's size and fills it |
| Rules.RespawnFacts | eva21/Snake/Snake.Model/SnakeModel.cs:159-171 | after respawn the snake is the spawn snake facing Right on Snake cells; every other cell is its wall or Empty |
| Rules.RespawnInv | eva21/Snake/Snake.Model/SnakeModel.cs:151-171 | respawning from any full map gives a state that satisfies the invariant |
| Rules.RestartKeepsRespawn | eva21/Snake/Snake.Model/SnakeModel.cs:173-175 | after the respawn, restart changes only Empty cells, to Food, and starts the timer; RestartFood shows it is exactly one cell |
| Rules.Restart | eva21/Snake/Snake.Model/SnakeModel.cs:151-176 | a restarted game has the same side, a full map and a running timer; RestartSpawn, RestartKeepsRespawn and RestartFood give the rest |
| Rules.RestartFood | eva21/Snake/Snake.Model/SnakeModel.cs:172-173 | when the respawned board has an Empty cell, exactly one such cell becomes Food and no other cell changes; otherwise the board stays as respawned |
| Rules.RestartInv | eva21/Snake/Snake.Model/SnakeModel.cs:151-176 | a restarted game satisfies the invariant |
| Rules.RestartSpawn | eva21/Snake/Snake.Model/SnakeModel.cs:151-176 | a restart has the spawn snake facing Right with score 0 and the timer running; walls are kept, and every cell but the food is its wall or Empty |
| Rules.ClearedSameWalls | eva21/Snake/Snake.Model/SnakeModel.cs:153-158 | two maps with the same walls clear to the same map |
| Rules.RestartSameCleared | eva21/Snake/Snake.Model/SnakeModel.cs:151-176 | two games that clear to the same map restart to the same map and snake |
| Rules.RestartDependsOnlyOnWalls | eva21/Snake/Snake.Model/SnakeModel.cs:151-176 | what a restart produces depends only on the walls, not on where the snake and food were |
| Rules.RespawnLayoutAt | eva21/Snake/Snake.Model/SnakeModel.cs:159-171 | on a fresh layout, respawning leaves each cell as it was |
| Rules.RespawnLayout | eva21/Snake/Snake.Model/SnakeModel.cs:159-171 | respawning a fresh layout gives that layout again |
| Rules.RestartLayout | eva21/Snake/Snake.Model/SnakeModel.cs:151-176 | restarting a fresh layout gives the board and snake a new game on the same walls gives |
| Rules.RestartAfterNewGame | eva21/Snake/Snake.Model/SnakeModel.cs:151-176 | restarting right after a new game gives the board and snake of a new game with the same draw |
| Rules.RestartReproducesLoad | eva21/Snake/Snake.Model/SnakeModel.cs:151-176 | after any play, a restart gives the board, snake and direction of loading the level again, with the timer running |
| Persistence.Split | eva22/Snake/Snake.Persistence.Text/TextFilePersistence.cs:35 | at least one token, and no token contains white space |
| Persistence.SplitJoin | eva22/Snake/Snake.Persistence.Text/TextFilePersistence.cs:35 | splitting tokens joined by single spaces gives the tokens back, empty ones included |
| Persistence.TrailingSpaceGivesEmptyToken | eva22/Snake/Snake.Persistence.Text/TextFilePersistence.cs:35 | text ending in white space has an empty last token |
| Persistence.ParseInt | eva22/Snake/Snake.Persistence.Text/TextFilePersistence.cs:36 | an accepted token has a sign or digit first, and its value fits in 32 bits; trailing '\0' characters are skipped before the digits are checked |
| Persistence.ParseSigned | eva22/Snake/Snake.Persistence.Text/TextFilePersistence.cs:36 | the sign-and-digits part of `int.Parse`: an accepted token starts with a sign or a digit and its value fits in 32 bits |
| Persistence.TrailingNulIgnored | eva22/Snake/Snake.Persistence.Text/TextFilePersistence.cs:36 | a '\0' after a token does not change what it parses to, so "6\0" reads as 6 |
| Persistence.ParseToDecimal | eva22/Snake/Snake.Persistence.Text/TextFilePersistence.cs:36 | parsing the decimal text of any 32-bit value gives that value |
| Persistence.ReadWallsComplete | eva22/Snake/Snake.Persistence.Text/TextFilePersistence.cs:38-40 | the wall loop completes exactly when the remaining tokens pair up and are all integers |
| Persistence.ReadWalls | eva22/Snake/Snake.Persistence.Text/TextFilePersistence.cs:38-40 | at most one wall per two tokens; ReadWallsComplete and ReadWallsPairs give when it completes and what it reads |
| Persistence.ReadWallsPairs | eva22/Snake/Snake.Persistence.Text/TextFilePersistence.cs:38-40 | when the loop completes, wall k is read from tokens 2k and 2k+1, in file order |
| Persistence.ReadWallTokens | eva22/Snake/Snake.Persistence.Text/TextFilePersistence.cs:38-40 | the decimal tokens of any 32-bit walls read back to those walls |
| Persistence.ParseLevelSpec | eva22/Snake/Snake.Persistence.Text/TextFilePersistence.cs:35-40 | a level parses exactly when its token count is odd, the size is an integer of at least six and every token is an integer |
| Persistence.ParseLevel | eva22/Snake/Snake.Persistence.Text/TextFilePersistence.cs:35-40 | a parsed level's size is the value of the first token and at least six; ParseLevelSpec and ParseLevelLayout give the rest |
| Persistence.Load | eva22/Snake/Snake.Persistence.Text/TextFilePersistence.cs:27-45 | a null path is ArgumentNull, every other failure is DataError, and a level is loaded only from text, with a size of at least six |
| Persistence.ParseLevelLayout | eva22/Snake/Snake.Persistence.Text/TextFilePersistence.cs:36-40 | a parsed level's size is the first token and its walls are the following tokens two by two |
| Persistence.SmallMapRejected | eva22/Snake/Snake.Persistence.Text/TextFilePersistence.cs:37 | a declared size below six is rejected |
| Persistence.DanglingTokenRejected | eva22/Snake/Snake.Persistence.Text/TextFilePersistence.cs:39 | a last coordinate without a partner is rejected |
| Persistence.NonIntegerRejected | eva22/Snake/Snake.Persistence.Text/TextFilePersistence.cs:36-39 | any token that is not an integer is rejected |
| Persistence.TrailingWhiteSpaceRejected | eva22/Snake/Snake.Persistence.Text/TextFilePersistence.cs:35-43 | a file ending in white space fails with DataError |
| Persistence.LoadFormat | eva22/Snake/Snake.Persistence.Text/TextFilePersistence.cs:27-45 | every level with a size of at least six and 32-bit coordinates loads back from its written form |
| Persistence.TextFilePersistence.constructor | eva22/Snake/Snake.Persistence.Text/TextFilePersistence.cs:16-21 | no level read yet: size 0 and no walls |
| Persistence.TextFilePersistence.LoadLevel | eva22/Snake/Snake.Persistence.Text/TextFilePersistence.cs:27-45 | succeeds exactly when `Load` does, with `MapSize` and `Walls` the level read; a null path faults ArgumentNull and changes nothing; every other failure is DataError, and the fields are left as the source leaves them |
| Persistence.TextFilePersistence.ReadPairs | eva22/Snake/Snake.Persistence.Text/TextFilePersistence.cs:38-40 | the walls appended and whether the loop ran to the end are `ReadWalls` of the tokens after the size |

## Left out

- Timer and threading: `System.Timers.Timer` raises Elapsed on another thread. Here the timer is two flags, one `Tick` call is one Elapsed event, and every call runs alone. The 150 ms interval plays no part.
- Randomness: `new Random()` and `r.Next(0, count)` become a parameter `rand`, and the choice is `rand % count`. The distribution is not modelled.
- Event delegates: subscribers are not modelled. Each raise is appended to a ghost log, whether or not anyone listens.
- File I/O: the `StreamReader` is replaced by a `Source` value: no path, an unreadable file, or the file's text.
- `int.Parse`: it is modelled with the invariant culture's signs and with the trailing '\0' characters it ignores. Other cultures' sign symbols are not modelled. Leading and trailing white space cannot occur in a token after `Split`.
- The `IPersistence` interface: `SnakeModel` is modelled over `TextFilePersistence`, the one implementation in the core.
- Model.SnakeModel.NewGame: requires a side of at least five and walls on the map. On other input the source throws an index exception part-way through, after replacing the timer and map, and that half-built state is not modelled.
- Model.SnakeModel.LoadLevel: requires that a level which loads has its walls on the map. The reader does not check this, and the engine would throw while placing such a wall.
- Model.SnakeModel.RestartLevel: requires a loaded level. Without one the source throws a null reference exception.
- Model.SnakeModel.MoveSnake: requires a loaded level. Without one the source throws a null reference exception.
- Model.SnakeModel.SpawnFood: requires a loaded level. Without one the source throws a null reference exception.
- Model.SnakeModel.Score: requires a loaded level. Without one the source throws a null reference exception.
- Model.SnakeModel.MapSize: requires a loaded level. Without one the source throws a null reference exception.
- Model.SnakeModel.At: requires a loaded level. Without one the source throws a null reference exception, as the indexer does. It also requires 0 <= x and 0 <= y below the map's side, where the source indexer throws IndexOutOfRangeException; every caller stays on the map.
- Exceptions: `ArgumentNullException` and `DataException` are returned as a `Fault` value instead of being thrown.
- Persistence.TextFilePersistence.constructor: `Walls` is null in the source until the first load. Here it starts as the empty sequence; the engine reads it only after a successful load.
- The user interface (WinForms and WPF views, view model) is not part of this model.
