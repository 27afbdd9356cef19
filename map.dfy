/**
 * The tile grid of src/map.c: `numRows` row arrays of `numCols` tiles each, reached
 * through an array of row pointers, plus the drawing size of one cell.
 */
module TileMap {

  /** `enum MapTile`: GROUND is enumerator 0, WALL enumerator 1. */
  datatype MapTile = Ground | Wall

  /** The C enumerator value of a tile. */
  function Enumerator(t: MapTile): (n: nat)
    ensures n < 2
    ensures (n == 0) <==> t == Ground
  {
    match t
    case Ground => 0
    case Wall => 1
  }

  /** `struct map`. */
  class Map {
    const numRows: int
    const numCols: int
    const gridSize: int
    const grid: array<array?<MapTile>>

    ghost const Repr: set<object>

    /**
     * The grid's invariant: `numRows` distinct row arrays, each of `numCols` tiles,
     * all owned by the map.
     */
    ghost predicate Valid()
      reads this, Repr
    {
      && this in Repr && grid in Repr
      && grid.Length == numRows
      && (forall r :: 0 <= r < numRows ==> grid[r] != null && grid[r] in Repr && grid[r].Length == numCols)
      && (forall r, s :: 0 <= r < s < numRows ==> grid[r] != grid[s])
    }

    /** `MapGetTile`: the tile at (`row`, `col`); reads the grid and changes nothing. */
    function GetTile(row: int, col: int): (tile: MapTile)
      requires Valid()
      requires 0 <= row < numRows && 0 <= col < numCols
      reads this, Repr
      ensures tile == grid[row][col]
    {
      grid[row][col]
    }

    /**
     * `MapCreate`: every row is allocated zero-filled, so every cell is GROUND (the
     * enumerator 0); the sizes are the arguments and each cell is 30 units wide.
     */
    constructor (numRows: int, numCols: int)
      requires numRows > 0 && numCols > 0
      ensures Valid() && fresh(Repr)
      ensures this.numRows == numRows && this.numCols == numCols && gridSize == 30
      ensures forall r, c :: 0 <= r < numRows && 0 <= c < numCols ==>
        GetTile(r, c) == Ground && Enumerator(GetTile(r, c)) == 0
    {
      var rows := new array?<MapTile>[numRows];
      ghost var rowSet: set<object> := {};
      for i := 0 to numRows
        invariant forall r :: 0 <= r < i ==> rows[r] != null && rows[r].Length == numCols && rows[r] in rowSet
        invariant forall r, s :: 0 <= r < s < i ==> rows[r] != rows[s]
        invariant forall r, c :: 0 <= r < i && 0 <= c < numCols ==> rows[r][c] == Ground
        invariant fresh(rowSet) && rows !in rowSet
      {
        var row := new MapTile[numCols](_ => Ground);
        rows[i] := row;
        rowSet := rowSet + {row};
      }
      grid := rows;
      this.numCols := numCols;
      this.numRows := numRows;
      gridSize := 30;
      Repr := {this, rows} + rowSet;
    }

    /**
     * `MapSetTile`: writes `tile` into cell (`row`, `col`); no other cell and none of
     * the sizes change.
     */
    method SetTile(row: int, col: int, tile: MapTile)
      requires Valid()
      requires 0 <= row < numRows && 0 <= col < numCols
      modifies grid[row]
      ensures Valid()
      ensures GetTile(row, col) == tile
      ensures forall r, c :: 0 <= r < numRows && 0 <= c < numCols && (r, c) != (row, col) ==>
        GetTile(r, c) == old(GetTile(r, c))
    {
      grid[row][col] := tile;
    }
  }
}
