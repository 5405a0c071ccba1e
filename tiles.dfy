/** One cell of the game map (Tile.cs) and its type tag (TileType.cs). */
module Tiles {

  /** What occupies a tile; exactly one tag at a time. */
  datatype TileType = Empty | Snake | Food | Wall

  /**
   * A tile of the map. Its coordinates are fixed at construction (the source
   * gives them private setters that only the constructor uses), so they are
   * `const` here; its type is the one attribute the engine writes in place.
   */
  class Tile {
    var Type: TileType
    const X: int
    const Y: int

    constructor (x: int, y: int)
      ensures X == x && Y == y
      ensures Type == Empty
    {
      X := x;
      Y := y;
      Type := Empty;
    }
  }
}
