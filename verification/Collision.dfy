/** Points, boxes and tiles of src/game/collision.cpp, with coordinates as real numbers. */
module Collision {
  datatype Vec = Vec(x: real, y: real)

  const TILE_SOLID: int := 1
  const TILE_NOHOOK: int := 3
  const TILE_NOLASER: int := 4

  /** The game layer: `m_Index` of each tile, row by row. */
  datatype GameMap = Unloaded | GameMap(width: nat, height: nat, tiles: seq<int>) {
    predicate Valid() {
      GameMap? ==> width > 0 && height > 0 && |tiles| == width * height
    }
  }

  /** A conversion to `int`: the fraction is cut off. */
  function Truncated(f: real): int {
    if f >= 0.0 then f.Floor else -(-f).Floor
  }

  /** `round_to_int` */
  function RoundToInt(f: real): int {
    if f > 0.0 then Truncated(f + 0.5) else Truncated(f - 0.5)
  }

  /** `x / 32` */
  function TileOf(x: int): int {
    if x >= 0 then x / 32 else -(-x / 32)
  }

  function Clamp(x: int, lo: int, hi: int): int {
    if x < lo then lo else if x > hi then hi else x
  }

  /** The column of a coordinate, or the row. */
  function Cell(x: int, size: nat): (c: nat)
    requires size > 0
    ensures c < size
  {
    Clamp(TileOf(x), 0, size - 1)
  }

  lemma CellInMap(row: nat, column: nat, width: nat, height: nat)
    requires row < height && column < width
    ensures row * width + column < width * height
  {
    assert (row + 1) * width <= height * width;
  }

  lemma NoMultiple(d: int, width: nat)
    requires -(width as int) < d * width < width
    ensures d == 0
  {
    assert d > 0 ==> d * width >= width;
    assert d < 0 ==> d * width <= -(width as int);
  }

  lemma ColumnAndRow(column: nat, row: nat, width: nat)
    requires column < width
    ensures (row * width + column) / width == row && (row * width + column) % width == column
  {
    var index := row * width + column;
    assert (index / width - row) * width == column - index % width;
    NoMultiple(index / width - row, width);
  }

  function GetTile(m: GameMap, x: int, y: int): int
    requires m.Valid()
  {
    if m.Unloaded? then 0
    else
      var (column, row) := (Cell(x, m.width), Cell(y, m.height));
      CellInMap(row, column, m.width, m.height);
      var tile := m.tiles[row * m.width + column];
      if TILE_SOLID <= tile <= TILE_NOLASER then tile else 0
  }

  predicate IsSolid(m: GameMap, x: int, y: int)
    requires m.Valid()
  {
    var tile := GetTile(m, x, y);
    tile == TILE_SOLID || tile == TILE_NOHOOK
  }

  predicate CheckPoint(m: GameMap, p: Vec)
    requires m.Valid()
  {
    IsSolid(m, RoundToInt(p.x), RoundToInt(p.y))
  }

  predicate TestBox(m: GameMap, pos: Vec, size: Vec)
    requires m.Valid()
  {
    var half := Vec(size.x * 0.5, size.y * 0.5);
    || CheckPoint(m, Vec(pos.x - half.x, pos.y - half.y))
    || CheckPoint(m, Vec(pos.x + half.x, pos.y - half.y))
    || CheckPoint(m, Vec(pos.x - half.x, pos.y + half.y))
    || CheckPoint(m, Vec(pos.x + half.x, pos.y + half.y))
  }

  predicate InBox(p: Vec, pos: Vec, size: Vec) {
    && pos.x - size.x * 0.5 <= p.x <= pos.x + size.x * 0.5
    && pos.y - size.y * 0.5 <= p.y <= pos.y + size.y * 0.5
  }

  /** No point of the box is in a solid tile. */
  ghost predicate BoxIsFree(m: GameMap, pos: Vec, size: Vec)
    requires m.Valid()
  {
    forall p: Vec :: InBox(p, pos, size) ==> !CheckPoint(m, p)
  }

  // Which tile a point is in.

  /** A coordinate belongs to column (or row) `c` of `size`: from half a unit before the tile's edge on, and without end
      at the borders of the map. */
  predicate Covers(x: real, c: nat, size: nat) {
    (c == 0 || 32.0 * c as real - 0.5 <= x) && (c + 1 == size || x < 32.0 * (c + 1) as real - 0.5)
  }

  lemma CellIff(x: real, c: nat, size: nat)
    requires c < size
    ensures Cell(RoundToInt(x), size) == c <==> Covers(x, c, size)
  {
    var t: int := 32 * c;
    assert 32.0 * c as real == t as real && 32.0 * (c + 1) as real == (t + 32) as real;
    if x > 0.0 {
      assert (x + 0.5).Floor >= t <==> x + 0.5 >= t as real;
      assert (x + 0.5).Floor >= t + 32 <==> x + 0.5 >= (t + 32) as real;
    } else {
      assert RoundToInt(x) <= 0;
    }
  }

  /** A point is solid exactly if the tile it is in is solid or not hookable: the one `column` tiles from the left and
      `row` tiles from the top. Without a map nothing is. */
  lemma CheckPointIff(m: GameMap, p: Vec, column: nat, row: nat)
    requires m.Valid()
    requires m.GameMap? ==> column < m.width && row < m.height
    requires m.GameMap? ==> Covers(p.x, column, m.width) && Covers(p.y, row, m.height)
    ensures m.Unloaded? ==> !CheckPoint(m, p)
    ensures m.GameMap? ==>
              row * m.width + column < |m.tiles| &&
              (CheckPoint(m, p) <==> m.tiles[row * m.width + column] == 1 || m.tiles[row * m.width + column] == 3)
  {
    if m.GameMap? {
      CellInMap(row, column, m.width, m.height);
      CellIff(p.x, column, m.width);
      CellIff(p.y, row, m.height);
      hide Cell, RoundToInt, Covers;
    }
  }

  // Four corners are enough for boxes of up to one tile.

  lemma CellMonotone(a: real, b: real, size: nat)
    requires size > 0 && a <= b
    ensures Cell(RoundToInt(a), size) <= Cell(RoundToInt(b), size)
  {
    assert RoundToInt(a) <= RoundToInt(b);
  }

  /** Two points at most 32 apart are in the same or in neighbouring columns. */
  lemma CellsAreNeighbours(a: real, b: real, size: nat)
    requires size > 0 && a <= b <= a + 32.0
    ensures Cell(RoundToInt(b), size) <= Cell(RoundToInt(a), size) + 1
  {
    if a > 0.0 {
      assert (a + 32.5).Floor == (a + 0.5).Floor + 32;
    }
  }

  /** Everything between them is in one of the two. */
  lemma BetweenIsAtEnd(a: real, x: real, b: real, size: nat)
    requires size > 0 && a <= x <= b <= a + 32.0
    ensures Cell(RoundToInt(x), size) == Cell(RoundToInt(a), size) ||
            Cell(RoundToInt(x), size) == Cell(RoundToInt(b), size)
  {
    hide Cell, RoundToInt;
    CellMonotone(a, x, size);
    CellMonotone(x, b, size);
    CellsAreNeighbours(a, b, size);
  }

  lemma SameTile(m: GameMap, p: Vec, q: Vec)
    requires m.Valid()
    requires m.GameMap? ==> Cell(RoundToInt(p.x), m.width) == Cell(RoundToInt(q.x), m.width)
    requires m.GameMap? ==> Cell(RoundToInt(p.y), m.height) == Cell(RoundToInt(q.y), m.height)
    ensures CheckPoint(m, p) == CheckPoint(m, q)
  {
    hide Cell, RoundToInt;
  }

  lemma CornersSuffice(m: GameMap, pos: Vec, size: Vec)
    requires m.Valid() && 0.0 <= size.x <= 32.0 && 0.0 <= size.y <= 32.0
    ensures !TestBox(m, pos, size) <==> BoxIsFree(m, pos, size)
  {
    var (l, r) := (pos.x - size.x * 0.5, pos.x + size.x * 0.5);
    var (t, b) := (pos.y - size.y * 0.5, pos.y + size.y * 0.5);
    hide CheckPoint, Cell, RoundToInt;
    assert InBox(Vec(l, t), pos, size) && InBox(Vec(r, t), pos, size);
    assert InBox(Vec(l, b), pos, size) && InBox(Vec(r, b), pos, size);
    if m.GameMap? && !TestBox(m, pos, size) {
      forall p: Vec | InBox(p, pos, size)
        ensures !CheckPoint(m, p)
      {
        BetweenIsAtEnd(l, p.x, r, m.width);
        BetweenIsAtEnd(t, p.y, b, m.height);
        var x := if Cell(RoundToInt(p.x), m.width) == Cell(RoundToInt(l), m.width) then l else r;
        var y := if Cell(RoundToInt(p.y), m.height) == Cell(RoundToInt(t), m.height) then t else b;
        SameTile(m, p, Vec(x, y));
      }
    } else if m.Unloaded? {
      forall p: Vec
        ensures !CheckPoint(m, p)
      {
        NothingSolid(m, p);
      }
    }
  }

  lemma NothingSolid(m: GameMap, p: Vec)
    requires m.Unloaded?
    ensures !CheckPoint(m, p)
  {
  }

  /** Coordinates in front of, in and behind the middle one of three tiles. */
  lemma AroundTile(lo: real)
    requires lo < 31.5
    ensures Cell(RoundToInt(lo), 3) == 0 && Cell(RoundToInt(40.0), 3) == 1 && Cell(RoundToInt(63.5), 3) == 2
  {
    assert RoundToInt(lo) <= 31;
    assert RoundToInt(63.5) == 64;
  }

  /** A wall of one tile that fits between the corners of a wider box. */
  lemma WideBoxMissesWall(size: Vec)
    requires size.x > 32.0 && size.y >= 0.0
    ensures exists m: GameMap, pos :: m.Valid() && !TestBox(m, pos, size) && !BoxIsFree(m, pos, size)
  {
    hide RoundToInt, Cell;
    var m := GameMap.GameMap(3, 1, [0, 1, 0]);
    var pos := Vec(63.5 - size.x * 0.5, 0.0);
    AroundTile(63.5 - size.x);
    assert pos.x + size.x * 0.5 == 63.5 && pos.x - size.x * 0.5 == 63.5 - size.x;
    assert !TestBox(m, pos, size);
    var p := Vec(40.0, 0.0);
    assert InBox(p, pos, size) && CheckPoint(m, p);
  }

  lemma HighBoxMissesWall(size: Vec)
    requires size.y > 32.0 && size.x >= 0.0
    ensures exists m: GameMap, pos :: m.Valid() && !TestBox(m, pos, size) && !BoxIsFree(m, pos, size)
  {
    hide RoundToInt, Cell;
    var m := GameMap.GameMap(1, 3, [0, 1, 0]);
    var pos := Vec(0.0, 63.5 - size.y * 0.5);
    AroundTile(63.5 - size.y);
    assert pos.y + size.y * 0.5 == 63.5 && pos.y - size.y * 0.5 == 63.5 - size.y;
    assert !TestBox(m, pos, size);
    var p := Vec(0.0, 40.0);
    assert InBox(p, pos, size) && CheckPoint(m, p);
  }

  /** On every map and at every position four corners tell whether the whole box is free, exactly for boxes of at most
      one tile. */
  lemma CornersSufficeIff(size: Vec)
    requires size.x >= 0.0 && size.y >= 0.0
    ensures (forall m: GameMap, pos :: m.Valid() && !TestBox(m, pos, size) ==> BoxIsFree(m, pos, size))
            <==> size.x <= 32.0 && size.y <= 32.0
  {
    hide TestBox, BoxIsFree;
    if size.x > 32.0 {
      WideBoxMissesWall(size);
    } else if size.y > 32.0 {
      HighBoxMissesWall(size);
    } else {
      forall m: GameMap, pos | m.Valid()
        ensures !TestBox(m, pos, size) <==> BoxIsFree(m, pos, size)
      {
        CornersSuffice(m, pos, size);
      }
    }
  }
}
