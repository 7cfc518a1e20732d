/** The teleporter index of `CCollision` (src/game/collision.cpp): built by `Init`, read by `TeleAllGet`. */
module TeleIndex {
  import opened Collision

  const TILE_TELEIN: int := 26
  const TILE_TELEOUT: int := 27
  const TILE_TELECHECKOUT: int := 30

  datatype TeleTile = TeleTile(number: nat, kind: int)

  /** The four maps a tile can be listed in. */
  datatype List = Ins | Outs | CheckOuts | Others

  function ListOf(kind: int): List {
    if kind == TILE_TELEIN then Ins
    else if kind == TILE_TELEOUT then Outs
    else if kind == TILE_TELECHECKOUT then CheckOuts
    else Others
  }

  /** Tiles with a number count, if they have a kind. */
  predicate IsTele(t: TeleTile, n: int) {
    t.number > 0 && t.number - 1 == n && t.kind != 0
  }

  /** `GetPos` */
  function GetPos(index: int, width: nat): Vec
    requires width > 0
  {
    if index < 0 then Vec(0.0, 0.0)
    else Vec((index % width * 32 + 16) as real, (index / width * 32 + 16) as real)
  }

  /** `GetPureMapIndex` */
  function GetPureMapIndex(p: Vec, width: nat, height: nat): nat
    requires width > 0 && height > 0
  {
    Cell(RoundToInt(p.y), height) * width + Cell(RoundToInt(p.x), width)
  }

  /** It is the index of the tile the point is in. */
  lemma PureMapIndexIs(p: Vec, column: nat, row: nat, width: nat, height: nat)
    requires column < width && row < height && Covers(p.x, column, width) && Covers(p.y, row, height)
    ensures GetPureMapIndex(p, width, height) == row * width + column
  {
    CellIff(p.x, column, width);
    CellIff(p.y, row, height);
    hide Cell, RoundToInt, Covers;
  }

  /** `GetPos` is the tile's centre. */
  lemma GetPosIs(column: nat, row: nat, width: nat)
    requires column < width
    ensures GetPos(row * width + column, width) == Vec(32.0 * column as real + 16.0, 32.0 * row as real + 16.0)
  {
    ColumnAndRow(column, row, width);
    assert row * width + column >= 0;
  }

  /** The centre of a tile leads back to the tile. */
  lemma CentreIsInTile(index: nat, width: nat, height: nat)
    requires width > 0 && height > 0 && index < width * height
    ensures GetPureMapIndex(GetPos(index, width), width, height) == index
  {
    var (column, row) := (index % width, index / width);
    assert index == row * width + column;
    if row >= height {
      RowsAdd(height, row, width);
    }
    assert RoundToInt((column * 32 + 16) as real) == column * 32 + 16;
    assert RoundToInt((row * 32 + 16) as real) == row * 32 + 16;
    CentreCell(column, width);
    CentreCell(row, height);
  }

  lemma RowsAdd(a: nat, b: nat, width: nat)
    requires a <= b
    ensures a * width <= b * width
  {
  }

  lemma CentreCell(c: nat, size: nat)
    requires c < size
    ensures Cell(c * 32 + 16, size) == c
  {
  }

  /** The tiles of one list and number below `end`, in map order. */
  function TilesBelow(tele: seq<TeleTile>, end: nat, n: int, list: List): (tiles: seq<nat>)
    requires end <= |tele|
  {
    if end == 0 then []
    else
      TilesBelow(tele, end - 1, n, list) +
      if IsTele(tele[end - 1], n) && ListOf(tele[end - 1].kind) == list then [end - 1] else []
  }

  /** All tiles of a number, list by list. */
  function AllTiles(tele: seq<TeleTile>, n: int): seq<nat> {
    TilesBelow(tele, |tele|, n, Ins) + TilesBelow(tele, |tele|, n, Outs) + TilesBelow(tele, |tele|, n, CheckOuts) +
    TilesBelow(tele, |tele|, n, Others)
  }

  predicate Distinct(tiles: seq<nat>) {
    forall j, k :: 0 <= j < k < |tiles| ==> tiles[j] != tiles[k]
  }

  lemma {:induction false} TilesBelowAre(tele: seq<TeleTile>, end: nat, n: int, list: List)
    requires end <= |tele|
    ensures forall i: nat :: i in TilesBelow(tele, end, n, list) <==>
                               i < end && IsTele(tele[i], n) && ListOf(tele[i].kind) == list
    ensures Distinct(TilesBelow(tele, end, n, list))
  {
    if end > 0 {
      hide IsTele, ListOf, Distinct;
      TilesBelowAre(tele, end - 1, n, list);
      var before := TilesBelow(tele, end - 1, n, list);
      DistinctTogether(before, [end - 1]) by {
        OneIsDistinct(end - 1);
      }
      assert before + [] == before;
    }
  }

  lemma OneIsDistinct(i: nat)
    ensures Distinct([i])
  {
  }

  lemma DistinctTogether(s: seq<nat>, t: seq<nat>)
    requires Distinct(s) && Distinct(t) && forall i :: i in s ==> i !in t
    ensures Distinct(s + t)
  {
    forall j, k | 0 <= j < k < |s + t|
      ensures (s + t)[j] != (s + t)[k]
    {
      if j < |s| <= k {
        assert s[j] in s && t[k - |s|] in t;
      }
    }
  }

  /** The four maps: entrances (26), exits (27), checkpoint exits (30), and every other kind of teleporter. */
  lemma ListsAreByKind(tele: seq<TeleTile>, n: int, i: nat)
    requires i < |tele|
    ensures var t := tele[i];
            var counts := t.number > 0 && t.number - 1 == n;
            && (i in TilesBelow(tele, |tele|, n, Ins) <==> counts && t.kind == 26)
            && (i in TilesBelow(tele, |tele|, n, Outs) <==> counts && t.kind == 27)
            && (i in TilesBelow(tele, |tele|, n, CheckOuts) <==> counts && t.kind == 30)
            && (i in TilesBelow(tele, |tele|, n, Others) <==> counts && t.kind !in {0, 26, 27, 30})
  {
    TilesBelowAre(tele, |tele|, n, Ins);
    TilesBelowAre(tele, |tele|, n, Outs);
    TilesBelowAre(tele, |tele|, n, CheckOuts);
    TilesBelowAre(tele, |tele|, n, Others);
    hide TilesBelow;
  }

  /** And in map order. */
  lemma {:induction false} ListsAreSorted(tele: seq<TeleTile>, end: nat, n: int, list: List)
    requires end <= |tele|
    ensures var tiles := TilesBelow(tele, end, n, list); forall j, k :: 0 <= j < k < |tiles| ==> tiles[j] < tiles[k]
  {
    if end > 0 {
      ListsAreSorted(tele, end - 1, n, list);
      TilesBelowAre(tele, end - 1, n, list);
      var before := TilesBelow(tele, end - 1, n, list);
      assert forall j :: 0 <= j < |before| ==> before[j] in before;
      hide IsTele, ListOf;
    }
  }

  /** Every tile of the number with a kind is listed, nothing else is, and nothing twice. */
  lemma AllTilesAre(tele: seq<TeleTile>, n: int)
    ensures forall i: nat :: i in AllTiles(tele, n) <==> i < |tele| && IsTele(tele[i], n)
    ensures Distinct(AllTiles(tele, n))
  {
    hide IsTele, ListOf, TilesBelow, Distinct;
    var ins, outs := TilesBelow(tele, |tele|, n, Ins), TilesBelow(tele, |tele|, n, Outs);
    var checkOuts, others := TilesBelow(tele, |tele|, n, CheckOuts), TilesBelow(tele, |tele|, n, Others);
    TilesBelowAre(tele, |tele|, n, Ins);
    TilesBelowAre(tele, |tele|, n, Outs);
    TilesBelowAre(tele, |tele|, n, CheckOuts);
    TilesBelowAre(tele, |tele|, n, Others);
    DistinctTogether(ins, outs);
    DistinctTogether(ins + outs, checkOuts);
    DistinctTogether(ins + outs + checkOuts, others);
  }

  /** Entrances come first, then exits, checkpoint exits, and the others. */
  function Rank(kind: int): nat {
    if kind == 26 then 0 else if kind == 27 then 1 else if kind == 30 then 2 else 3
  }

  predicate Precedes(tele: seq<TeleTile>, i: nat, j: nat) {
    && i < |tele| && j < |tele|
    && (Rank(tele[i].kind) < Rank(tele[j].kind) || (Rank(tele[i].kind) == Rank(tele[j].kind) && i < j))
  }

  ghost predicate InOrder(tele: seq<TeleTile>, tiles: seq<nat>) {
    && (forall i :: i in tiles ==> i < |tele|)
    && forall j, k :: 0 <= j < k < |tiles| ==> Precedes(tele, tiles[j], tiles[k])
  }

  lemma OneListInOrder(tele: seq<TeleTile>, n: int, list: List)
    ensures InOrder(tele, TilesBelow(tele, |tele|, n, list))
    ensures forall i :: i in TilesBelow(tele, |tele|, n, list) ==>
              i < |tele| && Rank(tele[i].kind) == (if list == Ins then 0 else if list == Outs then 1
                                                   else if list == CheckOuts then 2 else 3)
  {
    TilesBelowAre(tele, |tele|, n, list);
    ListsAreSorted(tele, |tele|, n, list);
    var tiles := TilesBelow(tele, |tele|, n, list);
    assert forall j :: 0 <= j < |tiles| ==> tiles[j] in tiles;
    hide TilesBelow;
  }

  lemma InOrderTogether(tele: seq<TeleTile>, s: seq<nat>, t: seq<nat>)
    requires InOrder(tele, s) && InOrder(tele, t)
    requires forall i, j :: i in s && j in t ==> Rank(tele[i].kind) < Rank(tele[j].kind)
    ensures InOrder(tele, s + t)
  {
    hide Rank;
    forall j, k | 0 <= j < k < |s + t|
      ensures Precedes(tele, (s + t)[j], (s + t)[k])
    {
      if j < |s| <= k {
        assert s[j] in s && t[k - |s|] in t;
      } else if |s| <= j {
        assert Precedes(tele, t[j - |s|], t[k - |s|]);
      }
    }
  }

  /** All tiles of a number are enumerated kind by kind, and in map order within each. */
  lemma AllTilesInOrder(tele: seq<TeleTile>, n: int)
    ensures InOrder(tele, AllTiles(tele, n))
  {
    hide Rank, TilesBelow, InOrder;
    OneListInOrder(tele, n, Ins);
    OneListInOrder(tele, n, Outs);
    OneListInOrder(tele, n, CheckOuts);
    OneListInOrder(tele, n, Others);
    var ins, outs := TilesBelow(tele, |tele|, n, Ins), TilesBelow(tele, |tele|, n, Outs);
    var checkOuts, others := TilesBelow(tele, |tele|, n, CheckOuts), TilesBelow(tele, |tele|, n, Others);
    InOrderTogether(tele, ins, outs);
    InOrderTogether(tele, ins + outs, checkOuts);
    InOrderTogether(tele, ins + outs + checkOuts, others);
  }

  function Centres(tiles: seq<nat>, width: nat): (centres: seq<Vec>)
    requires width > 0
    ensures |centres| == |tiles|
  {
    seq(|tiles|, i requires 0 <= i < |tiles| => GetPos(tiles[i], width))
  }

  lemma CentresSnoc(tiles: seq<nat>, tile: nat, width: nat)
    requires width > 0
    ensures Centres(tiles + [tile], width) == Centres(tiles, width) + [GetPos(tile, width)]
  {
    hide GetPos;
  }

  type Table = map<int, seq<Vec>>

  function Listed(table: Table, n: int): seq<Vec> {
    if n in table then table[n] else []
  }

  function Emplaced(table: Table, n: int, p: Vec): Table {
    table[n := Listed(table, n) + [p]]
  }

  /** A table lists, under each number, the centres of its tiles below `end`. */
  ghost predicate Lists(table: Table, tele: seq<TeleTile>, end: nat, width: nat, list: List)
    requires end <= |tele| && width > 0
  {
    forall n :: Listed(table, n) == Centres(TilesBelow(tele, end, n, list), width)
  }

  lemma ListsMore(table: Table, tele: seq<TeleTile>, end: nat, width: nat, list: List)
    requires end < |tele| && width > 0 && Lists(table, tele, end, width, list)
    ensures var t := tele[end];
            var table' := if t.number > 0 && t.kind != 0 && ListOf(t.kind) == list
                          then Emplaced(table, t.number - 1, GetPos(end, width)) else table;
            Lists(table', tele, end + 1, width, list)
  {
    hide GetPos, Centres, ListOf, TilesBelow, Emplaced, Listed;
    var t := tele[end];
    var isNew := t.number > 0 && t.kind != 0 && ListOf(t.kind) == list;
    var table' := if isNew then Emplaced(table, t.number - 1, GetPos(end, width)) else table;
    forall n
      ensures Listed(table', n) == Centres(TilesBelow(tele, end + 1, n, list), width)
    {
      assert Listed(table, n) == Centres(TilesBelow(tele, end, n, list), width);
      ListedMore(table, tele, end, width, list, n);
    }
  }

  lemma ListedMore(table: Table, tele: seq<TeleTile>, end: nat, width: nat, list: List, n: int)
    requires end < |tele| && width > 0 && Listed(table, n) == Centres(TilesBelow(tele, end, n, list), width)
    ensures var t := tele[end];
            var table' := if t.number > 0 && t.kind != 0 && ListOf(t.kind) == list
                          then Emplaced(table, t.number - 1, GetPos(end, width)) else table;
            Listed(table', n) == Centres(TilesBelow(tele, end + 1, n, list), width)
  {
    hide GetPos, Centres, ListOf;
    var before := TilesBelow(tele, end, n, list);
    CentresSnoc(before, end, width);
    assert before + [] == before;
  }

  class TeleMaps {
    var width: nat
    var teleIns: Table
    var teleOuts: Table
    var teleCheckOuts: Table
    var teleOthers: Table

    ghost predicate ListsBelow(tele: seq<TeleTile>, end: nat)
      requires end <= |tele|
      reads this
    {
      && width > 0
      && Lists(teleIns, tele, end, width, Ins)
      && Lists(teleOuts, tele, end, width, Outs)
      && Lists(teleCheckOuts, tele, end, width, CheckOuts)
      && Lists(teleOthers, tele, end, width, Others)
    }

    /** The index agrees with the tiles. */
    ghost predicate Indexes(tele: seq<TeleTile>)
      reads this
    {
      ListsBelow(tele, |tele|)
    }

    /** The teleporter part of `Init`; a layer that is too short for the map counts as none. */
    method Init(width: nat, height: nat, layer: seq<TeleTile>)
      requires width > 0
      modifies this
      ensures Indexes(if |layer| >= width * height then layer[..width * height] else [])
    {
      hide TilesBelow, Centres, GetPos;
      this.width := width;
      teleIns, teleOuts, teleCheckOuts, teleOthers := map[], map[], map[], map[];
      NothingListed([], width);
      if |layer| >= width * height {
        ghost var tele := layer[..width * height];
        NothingListed(tele, width);
        for i := 0 to width * height
          invariant this.width == width && ListsBelow(tele, i)
        {
          label before:
          ListTile(layer[i], GetPos(i, width));
          ListsMore(old@before(teleIns), tele, i, width, Ins);
          ListsMore(old@before(teleOuts), tele, i, width, Outs);
          ListsMore(old@before(teleCheckOuts), tele, i, width, CheckOuts);
          ListsMore(old@before(teleOthers), tele, i, width, Others);
        }
      }
    }

    /** One round of the loop. */
    method ListTile(tile: TeleTile, p: Vec)
      modifies this`teleIns, this`teleOuts, this`teleCheckOuts, this`teleOthers
      ensures var isTele := tile.number > 0 && tile.kind != 0;
              var list := ListOf(tile.kind);
              && (teleIns == if isTele && list == Ins then Emplaced(old(teleIns), tile.number - 1, p) else old(teleIns))
              && (teleOuts ==
                  if isTele && list == Outs then Emplaced(old(teleOuts), tile.number - 1, p) else old(teleOuts))
              && (teleCheckOuts ==
                  if isTele && list == CheckOuts then Emplaced(old(teleCheckOuts), tile.number - 1, p)
                  else old(teleCheckOuts))
              && (teleOthers ==
                  if isTele && list == Others then Emplaced(old(teleOthers), tile.number - 1, p) else old(teleOthers))
    {
      if tile.number > 0 {
        if tile.kind == TILE_TELEIN {
          teleIns := Emplaced(teleIns, tile.number - 1, p);
        } else if tile.kind == TILE_TELEOUT {
          teleOuts := Emplaced(teleOuts, tile.number - 1, p);
        } else if tile.kind == TILE_TELECHECKOUT {
          teleCheckOuts := Emplaced(teleCheckOuts, tile.number - 1, p);
        } else if tile.kind != 0 {
          teleOthers := Emplaced(teleOthers, tile.number - 1, p);
        }
      }
    }

    /** `TeleAllSize`: how many tiles the number has. */
    method TeleAllSize(number: int, ghost tele: seq<TeleTile>) returns (total: nat)
      requires Indexes(tele)
      ensures total == |AllTiles(tele, number)|
    {
      hide TilesBelow, GetPos;
      total := 0;
      if number in teleIns {
        total := total + |teleIns[number]|;
      }
      if number in teleOuts {
        total := total + |teleOuts[number]|;
      }
      if number in teleCheckOuts {
        total := total + |teleCheckOuts[number]|;
      }
      if number in teleOthers {
        total := total + |teleOthers[number]|;
      }
      assert |Listed(teleIns, number)| == |TilesBelow(tele, |tele|, number, Ins)|;
      assert |Listed(teleOuts, number)| == |TilesBelow(tele, |tele|, number, Outs)|;
      assert |Listed(teleCheckOuts, number)| == |TilesBelow(tele, |tele|, number, CheckOuts)|;
      assert |Listed(teleOthers, number)| == |TilesBelow(tele, |tele|, number, Others)|;
    }

    /** `TeleAllGet`: the centre of the tile at `offset`, or (-1, -1) past the last. */
    method TeleAllGet(number: int, offset: nat, ghost tele: seq<TeleTile>) returns (p: Vec)
      requires Indexes(tele)
      ensures var tiles := AllTiles(tele, number);
              p == if offset < |tiles| then GetPos(tiles[offset], width) else Vec(-1.0, -1.0)
    {
      hide TilesBelow, GetPos, Centres, AllTiles;
      assert Listed(teleIns, number) == Centres(TilesBelow(tele, |tele|, number, Ins), width);
      assert Listed(teleOuts, number) == Centres(TilesBelow(tele, |tele|, number, Outs), width);
      assert Listed(teleCheckOuts, number) == Centres(TilesBelow(tele, |tele|, number, CheckOuts), width);
      assert Listed(teleOthers, number) == Centres(TilesBelow(tele, |tele|, number, Others), width);
      CentreAt(tele, number, width, offset);
      hide Indexes;
      var rest := offset;
      if number in teleIns {
        if |teleIns[number]| > rest {
          return teleIns[number][rest];
        }
        rest := rest - |teleIns[number]|;
      }
      if number in teleOuts {
        if |teleOuts[number]| > rest {
          return teleOuts[number][rest];
        }
        rest := rest - |teleOuts[number]|;
      }
      if number in teleCheckOuts {
        if |teleCheckOuts[number]| > rest {
          return teleCheckOuts[number][rest];
        }
        rest := rest - |teleCheckOuts[number]|;
      }
      if number in teleOthers {
        if |teleOthers[number]| > rest {
          return teleOthers[number][rest];
        }
      }
      return Vec(-1.0, -1.0);
    }
  }

  /** The centre at `offset` among all tiles, by lists. */
  lemma CentreAt(tele: seq<TeleTile>, n: int, width: nat, offset: nat)
    requires width > 0
    ensures var a := Centres(TilesBelow(tele, |tele|, n, Ins), width);
            var b := Centres(TilesBelow(tele, |tele|, n, Outs), width);
            var c := Centres(TilesBelow(tele, |tele|, n, CheckOuts), width);
            var d := Centres(TilesBelow(tele, |tele|, n, Others), width);
            var tiles := AllTiles(tele, n);
            (if offset < |tiles| then GetPos(tiles[offset], width) else Vec(-1.0, -1.0)) ==
            if offset < |a| then a[offset]
            else if offset - |a| < |b| then b[offset - |a|]
            else if offset - |a| - |b| < |c| then c[offset - |a| - |b|]
            else if offset - |a| - |b| - |c| < |d| then d[offset - |a| - |b| - |c|]
            else Vec(-1.0, -1.0)
  {
    hide TilesBelow, GetPos;
  }

  lemma NothingListed(tele: seq<TeleTile>, width: nat)
    requires width > 0
    ensures forall list :: Lists(map[], tele, 0, width, list)
  {
  }
}
