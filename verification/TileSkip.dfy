/** The skip index of tile layers (`CLayers::InitTilemapSkip`, src/game/layers.cpp): every marked tile says how many
    empty tiles behind it a walk along the row can jump over. */
module TileSkip {
  import opened CString

  datatype Tile = Tile(index: Byte, flags: Byte, skip: Byte, reserved: Byte)

  /** How far the walk gets from `p`: to the next tile that is not empty, at most 255 tiles, and not past `end`. */
  function Stride(t: seq<Tile>, p: nat, end: nat, n: nat): (m: nat)
    requires p + n <= end <= |t| && 1 <= n <= 255
    ensures n <= m <= 255 && p + m <= end
    decreases end - p - n
  {
    if p + n < end && n < 255 && t[p + n].index == 0 then Stride(t, p, end, n + 1) else n
  }

  /** Where a row begins. */
  function Row(y: nat, width: nat): nat {
    y * width
  }

  lemma FirstRow(width: nat)
    ensures Row(0, width) == 0
  {
  }

  lemma NextRow(y: nat, width: nat)
    ensures Row(y + 1, width) == Row(y, width) + width
  {
  }

  lemma {:induction false} RowEnd(width: nat, y: nat, height: nat)
    requires y < height
    ensures Row(y, width) + width == Row(y + 1, width) <= Row(height, width)
  {
    NextRow(y, width);
    if y + 1 < height {
      RowEnd(width, y, height - 1);
      NextRow(height - 1, width);
    }
  }

  function Marked(t: seq<Tile>, p: nat, n: nat): seq<Tile>
    requires p < |t| && 1 <= n <= 255
  {
    t[p := t[p].(skip := n - 1)]
  }

  /** The row from `p` on, marked. */
  function SkipRow(t: seq<Tile>, p: nat, end: nat): (r: seq<Tile>)
    requires end <= |t|
    ensures |r| == |t|
    decreases end - p
  {
    if p >= end then t
    else
      var n := Stride(t, p, end, 1);
      SkipRow(Marked(t, p, n), p + n, end)
  }

  /** The first rows, marked; the first column is left as it is. */
  function SkipRows(t: seq<Tile>, width: nat, rows: nat): (r: seq<Tile>)
    requires Row(rows, width) <= |t|
    ensures |r| == |t|
  {
    if rows == 0 then t
    else
      RowEnd(width, rows - 1, rows);
      SkipRow(SkipRows(t, width, rows - 1), Row(rows - 1, width) + 1, Row(rows, width))
  }

  // The loops.

  method FindStride(tiles: array<Tile>, p: nat, end: nat) returns (skipped: nat)
    requires p < end <= tiles.Length
    ensures skipped == Stride(tiles[..], p, end, 1)
  {
    skipped := 1;
    while p + skipped < end && skipped < 255
      invariant p + skipped <= end && 1 <= skipped <= 255
      invariant Stride(tiles[..], p, end, skipped) == Stride(tiles[..], p, end, 1)
    {
      if tiles[p + skipped].index != 0 {
        break;
      }
      skipped := skipped + 1;
    }
  }

  method MarkRow(tiles: array<Tile>, start: nat, end: nat)
    requires end <= tiles.Length
    modifies tiles
    ensures tiles[..] == SkipRow(old(tiles[..]), start, end)
  {
    var p := start;
    while p < end
      invariant SkipRow(tiles[..], p, end) == SkipRow(old(tiles[..]), start, end)
      decreases end - p
    {
      var skipped := FindStride(tiles, p, end);
      ghost var before := tiles[..];
      tiles[p] := tiles[p].(skip := skipped - 1);
      assert tiles[..] == Marked(before, p, skipped);
      p := p + skipped;
    }
  }

  /** `InitTilemapSkip`, for one layer */
  method InitTilemapSkip(tiles: array<Tile>, width: nat, height: nat)
    requires Row(height, width) <= tiles.Length
    modifies tiles
    ensures tiles[..] == SkipRows(old(tiles[..]), width, height)
  {
    hide Row;
    FirstRow(width);
    for y := 0 to height
      invariant Row(y, width) <= tiles.Length && tiles[..] == SkipRows(old(tiles[..]), width, y)
    {
      RowEnd(width, y, height);
      MarkRow(tiles, Row(y, width) + 1, Row(y + 1, width));
    }
  }

  // What the marks say.

  /** Nothing but the skip of a tile changes. */
  ghost predicate SameTiles(t: seq<Tile>, r: seq<Tile>) {
    |r| == |t| && forall k :: 0 <= k < |t| ==> r[k].(skip := 0) == t[k].(skip := 0)
  }

  lemma {:induction false} StrideIs(t: seq<Tile>, p: nat, end: nat, n: nat)
    requires p + n <= end <= |t| && 1 <= n <= 255
    requires forall k :: p < k < p + n ==> t[k].index == 0
    ensures var m := Stride(t, p, end, n);
            && (forall k :: p < k < p + m ==> t[k].index == 0)
            && (m == 255 || p + m == end || t[p + m].index != 0)
    decreases end - p - n
  {
    if p + n < end && n < 255 && t[p + n].index == 0 {
      StrideIs(t, p, end, n + 1);
    }
  }

  /** The tiles a walk jumps over from `p` are empty. */
  ghost predicate JumpsOverEmpty(t: seq<Tile>, p: nat)
    requires p < |t|
  {
    forall k :: p < k <= p + t[p].skip && k < |t| ==> t[k].index == 0
  }

  /** And it jumps as far as it can: to a tile that is not empty, the end of the row, or 255 tiles. */
  predicate JumpIsLongest(t: seq<Tile>, p: nat, end: nat)
    requires p < end <= |t|
  {
    var q := p + t[p].skip + 1;
    q <= end && (q == end || t[q].index != 0 || t[p].skip == 254)
  }

  /** The walk of everybody who reads the layer: `x` goes on by one, and by the skip of the tile. */
  predicate Visits(t: seq<Tile>, p: nat, end: nat, q: nat)
    requires end <= |t|
    decreases end - p
  {
    p < end && (p == q || Visits(t, p + t[p].skip + 1, end, q))
  }

  lemma {:induction false} SkipRowKeepsTiles(t: seq<Tile>, p: nat, end: nat)
    requires end <= |t|
    ensures SameTiles(t, SkipRow(t, p, end))
    ensures forall k :: 0 <= k < |t| && (k < p || k >= end) ==> SkipRow(t, p, end)[k] == t[k]
    decreases end - p
  {
    if p < end {
      var n := Stride(t, p, end, 1);
      SkipRowKeepsTiles(Marked(t, p, n), p + n, end);
    }
  }

  /** One mark, and what the marks behind it leave as it was. */
  lemma MarkedOnce(t: seq<Tile>, p: nat, end: nat)
    requires p < end <= |t|
    ensures var n := Stride(t, p, end, 1);
            var r := SkipRow(t, p, end);
            && r == SkipRow(Marked(t, p, n), p + n, end)
            && r[p].skip == n - 1
            && (forall k :: p < k < p + n ==> r[k] == t[k] && r[k].index == 0)
            && (n == 255 || p + n == end || r[p + n].index != 0)
  {
    var n := Stride(t, p, end, 1);
    var u := Marked(t, p, n);
    StrideIs(t, p, end, 1);
    SkipRowKeepsTiles(u, p + n, end);
    hide Stride;
    var r := SkipRow(t, p, end);
    assert r == SkipRow(u, p + n, end) && r[p] == u[p];
    if p + n < end {
      assert u[p + n] == t[p + n] && r[p + n].(skip := 0) == u[p + n].(skip := 0);
    }
  }

  /** A walk over the marked part of a row stops at marked tiles only, its jumps are right and as long as can be, and
      it visits every tile there that is not empty. */
  lemma {:induction false} MarkedWalk(t: seq<Tile>, p: nat, end: nat, q: nat)
    requires end <= |t| && p <= q < end
    ensures var r := SkipRow(t, p, end);
            && (r[q].index != 0 ==> Visits(r, p, end, q))
            && (Visits(r, p, end, q) ==> JumpsOverEmpty(r, q) && JumpIsLongest(r, q, end))
            && (!Visits(r, p, end, q) ==> r[q] == t[q])
    decreases end - p
  {
    var n := Stride(t, p, end, 1);
    var r := SkipRow(t, p, end);
    MarkedOnce(t, p, end);
    hide SkipRow, Stride;
    if q >= p + n {
      MarkedWalk(Marked(t, p, n), p + n, end, q);
    } else if q > p {
      NotBehind(r, p + n, end, q);
    }
  }

  /** A walk never goes back. */
  lemma {:induction false} NotBehind(t: seq<Tile>, p: nat, end: nat, q: nat)
    requires end <= |t| && q < p
    ensures !Visits(t, p, end, q)
    decreases end - p
  {
    if p < end {
      NotBehind(t, p + t[p].skip + 1, end, q);
    }
  }

  /** In the row from `start` to `end` the walk from its start sees every tile that is not empty, stops where it has to
      and nowhere else. */
  ghost predicate RowWalks(t: seq<Tile>, start: nat, end: nat)
    requires end <= |t|
  {
    forall q :: start <= q < end ==>
      && (t[q].index != 0 ==> Visits(t, start, end, q))
      && (Visits(t, start, end, q) ==> JumpsOverEmpty(t, q) && JumpIsLongest(t, q, end))
  }

  lemma {:induction false} VisitsLocal(t: seq<Tile>, u: seq<Tile>, p: nat, end: nat, q: nat)
    requires end <= |t| && |u| == |t| && forall k :: p <= k < end ==> u[k] == t[k]
    ensures Visits(u, p, end, q) == Visits(t, p, end, q)
    decreases end - p
  {
    if p < end {
      VisitsLocal(t, u, p + t[p].skip + 1, end, q);
    }
  }

  lemma RowWalksLocal(t: seq<Tile>, u: seq<Tile>, start: nat, end: nat)
    requires end <= |t| && |u| == |t| && forall k :: start <= k < end ==> u[k] == t[k]
    requires RowWalks(t, start, end)
    ensures RowWalks(u, start, end)
  {
    hide Visits;
    forall q | start <= q < end
      ensures Visits(u, start, end, q) == Visits(t, start, end, q)
    {
      VisitsLocal(t, u, start, end, q);
    }
  }

  lemma MarkedRowWalks(t: seq<Tile>, start: nat, end: nat)
    requires end <= |t|
    ensures RowWalks(SkipRow(t, start, end), start, end)
  {
    hide Visits, JumpsOverEmpty, JumpIsLongest;
    forall q | start <= q < end
      ensures var r := SkipRow(t, start, end);
              && (r[q].index != 0 ==> Visits(r, start, end, q))
              && (Visits(r, start, end, q) ==> JumpsOverEmpty(r, q) && JumpIsLongest(r, q, end))
    {
      MarkedWalk(t, start, end, q);
    }
  }

  /** Whatever skips were there before: in every row of the layer the walk from column 1 sees all it has to. */
  lemma {:induction false} LayerWalks(t: seq<Tile>, width: nat, rows: nat, y: nat)
    requires Row(rows, width) <= |t| && y < rows
    ensures Row(y + 1, width) <= |t|
    ensures RowWalks(SkipRows(t, width, rows), Row(y, width) + 1, Row(y + 1, width))
  {
    hide RowWalks, Row;
    RowEnd(width, y, rows);
    RowEnd(width, rows - 1, rows);
    var u := SkipRows(t, width, rows - 1);
    if y == rows - 1 {
      MarkedRowWalks(u, Row(y, width) + 1, Row(y + 1, width));
    } else {
      RowEnd(width, y, rows - 1);
      LayerWalks(t, width, rows - 1, y);
      SkipRowKeepsTiles(u, Row(rows - 1, width) + 1, Row(rows, width));
      RowWalksLocal(u, SkipRows(t, width, rows), Row(y, width) + 1, Row(y + 1, width));
    }
  }

  /** Nothing but skips changes, and none in the first column or past the layer. */
  lemma {:induction false} LayerKeepsTiles(t: seq<Tile>, width: nat, rows: nat)
    requires Row(rows, width) <= |t|
    ensures SameTiles(t, SkipRows(t, width, rows))
    ensures forall k :: Row(rows, width) <= k < |t| ==> SkipRows(t, width, rows)[k] == t[k]
    ensures forall y: nat :: y < rows && Row(y, width) < |t| ==>
              SkipRows(t, width, rows)[Row(y, width)] == t[Row(y, width)]
  {
    hide Row;
    if rows == 0 {
      FirstRow(width);
    } else {
      RowEnd(width, rows - 1, rows);
      var u := SkipRows(t, width, rows - 1);
      LayerKeepsTiles(t, width, rows - 1);
      SkipRowKeepsTiles(u, Row(rows - 1, width) + 1, Row(rows, width));
      forall y: nat | y < rows && Row(y, width) < |t|
        ensures SkipRows(t, width, rows)[Row(y, width)] == t[Row(y, width)]
      {
        if y < rows - 1 {
          RowEnd(width, y, rows - 1);
        }
      }
    }
  }

  /** No tile of the layer jumps over one that is not empty. */
  ghost predicate IsSound(t: seq<Tile>) {
    forall p :: 0 <= p < |t| ==> JumpsOverEmpty(t, p)
  }

  lemma SkipRowKeepsSound(t: seq<Tile>, start: nat, end: nat)
    requires end <= |t| && IsSound(t)
    ensures IsSound(SkipRow(t, start, end))
  {
    hide Visits, JumpIsLongest, JumpsOverEmpty;
    var r := SkipRow(t, start, end);
    SkipRowKeepsTiles(t, start, end);
    forall q | 0 <= q < |t|
      ensures JumpsOverEmpty(r, q)
    {
      if start <= q < end {
        MarkedWalk(t, start, end, q);
      }
      if r[q] == t[q] {
        SameJump(t, r, q);
      }
    }
  }

  lemma SameJump(t: seq<Tile>, r: seq<Tile>, q: nat)
    requires SameTiles(t, r) && q < |t| && r[q] == t[q] && JumpsOverEmpty(t, q)
    ensures JumpsOverEmpty(r, q)
  {
    forall k | q < k <= q + r[q].skip && k < |r|
      ensures r[k].index == 0
    {
      assert r[k].(skip := 0) == t[k].(skip := 0);
    }
  }

  /** A layer that comes without skips, as `ExtractTiles` leaves it, is sound afterwards. */
  lemma {:induction false} LayerIsSound(t: seq<Tile>, width: nat, rows: nat)
    requires Row(rows, width) <= |t| && IsSound(t)
    ensures IsSound(SkipRows(t, width, rows))
  {
    hide IsSound, Row;
    if rows > 0 {
      RowEnd(width, rows - 1, rows);
      LayerIsSound(t, width, rows - 1);
      SkipRowKeepsSound(SkipRows(t, width, rows - 1), Row(rows - 1, width) + 1, Row(rows, width));
    }
  }

  lemma NoSkipsAreSound(t: seq<Tile>)
    requires forall p :: 0 <= p < |t| ==> t[p].skip == 0
    ensures IsSound(t)
  {
  }

  /** Then every walk sees everything from where it starts: along a row from any column, as rendering does that begins
      at the edge of the screen, or through the whole layer. */
  lemma {:induction false} SoundWalkSeesAll(t: seq<Tile>, p: nat, end: nat, q: nat)
    requires end <= |t| && IsSound(t) && p <= q < end && t[q].index != 0
    ensures Visits(t, p, end, q)
    decreases end - p
  {
    if p < q {
      assert JumpsOverEmpty(t, p);
      SoundWalkSeesAll(t, p + t[p].skip + 1, end, q);
    }
  }

  lemma WalkFromAnywhere(t: seq<Tile>, width: nat, rows: nat, p: nat, end: nat, q: nat)
    requires Row(rows, width) <= |t| && forall k :: 0 <= k < |t| ==> t[k].skip == 0
    requires p <= q < end <= |t| && t[q].index != 0
    ensures Visits(SkipRows(t, width, rows), p, end, q)
  {
    hide Visits, IsSound;
    NoSkipsAreSound(t);
    LayerIsSound(t, width, rows);
    LayerKeepsTiles(t, width, rows);
    var r := SkipRows(t, width, rows);
    assert r[q].(skip := 0) == t[q].(skip := 0);
    SoundWalkSeesAll(r, p, end, q);
  }

  // A layer with skips from before: the first column keeps them, and so do empty tiles that are jumped over.

  /** The first tile behind the first column of a row that is not empty, or the end of the row. */
  ghost predicate IsFirst(t: seq<Tile>, start: nat, end: nat, f: nat) {
    && start < f <= end <= |t| && (forall k :: start < k < f ==> t[k].index == 0)
    && (f < end ==> t[f].index != 0)
  }

  /** The columns before it that are marked: column 1, and every 255th from there. */
  predicate IsStop(column: nat) {
    column % 255 == 1
  }

  /** On the old skips a walk from `p` gets to `f`, or to a marked column before it. */
  predicate Finds(t: seq<Tile>, start: nat, p: nat, f: nat)
    requires start <= p && f <= |t|
    decreases f - p
  {
    p == f || (p < f && (IsStop(p - start) || Finds(t, start, p + t[p].skip + 1, f)))
  }

  /** How the tiles before `f` are marked. */
  predicate IsPrefixTile(t: seq<Tile>, r: seq<Tile>, start: nat, f: nat, q: nat)
    requires start < q < f <= |t| && |r| == |t|
  {
    if IsStop(q - start) then q + r[q].skip + 1 == if q + 255 < f then q + 255 else f else r[q] == t[q]
  }

  lemma StrideToFirst(t: seq<Tile>, p: nat, end: nat, f: nat)
    requires p < f < end <= |t| && (forall k :: p < k < f ==> t[k].index == 0) && t[f].index != 0
    ensures Stride(t, p, end, 1) == if p + 255 < f then 255 else f - p
  {
    StrideIs(t, p, end, 1);
    hide Stride;
  }

  lemma {:induction false} PrefixIsMarked(t: seq<Tile>, start: nat, p: nat, end: nat, f: nat, q: nat)
    requires start < p <= q < f < end <= |t| && IsStop(p - start)
    requires (forall k :: p < k < f ==> t[k].index == 0) && t[f].index != 0
    ensures IsPrefixTile(t, SkipRow(t, p, end), start, f, q)
    decreases f - p
  {
    var n := Stride(t, p, end, 1);
    var u := Marked(t, p, n);
    StrideToFirst(t, p, end, f);
    SkipRowKeepsTiles(u, p + n, end);
    hide Stride;
    assert SkipRow(t, p, end) == SkipRow(u, p + n, end);
    if q >= p + n {
      PrefixIsMarked(u, start, p + n, end, f, q);
    }
  }

  lemma {:induction false} LaterRowsLeave(t: seq<Tile>, width: nat, rows: nat, y: nat, k: nat)
    requires y < rows && Row(rows, width) <= |t| && Row(y + 1, width) <= |t| && k < Row(y + 1, width)
    ensures SkipRows(t, width, rows)[k] == SkipRows(t, width, y + 1)[k]
  {
    hide Row, SkipRow;
    if y + 1 < rows {
      RowEnd(width, rows - 1, rows);
      RowEnd(width, y, rows - 1);
      LaterRowsLeave(t, width, rows - 1, y, k);
      SkipRowKeepsTiles(SkipRows(t, width, rows - 1), Row(rows - 1, width) + 1, Row(rows, width));
    }
  }

  lemma SamePrefixTile(t: seq<Tile>, u: seq<Tile>, r: seq<Tile>, r': seq<Tile>, start: nat, f: nat, q: nat)
    requires start < q < f <= |t| == |u| == |r| == |r'| && u[q] == t[q] && r'[q] == r[q]
    requires IsPrefixTile(u, r, start, f, q)
    ensures IsPrefixTile(t, r', start, f, q)
  {
  }

  lemma PrefixOfRow(t: seq<Tile>, width: nat, rows: nat, y: nat, f: nat, q: nat)
    requires Row(rows, width) <= |t| && y < rows && Row(y, width) < q < f < Row(y + 1, width) <= |t|
    requires IsFirst(t, Row(y, width), Row(y + 1, width), f)
    ensures IsPrefixTile(t, SkipRows(t, width, rows), Row(y, width), f, q)
  {
    hide Row, SkipRow, IsPrefixTile;
    RowEnd(width, y, rows);
    var start, end := Row(y, width), Row(y + 1, width);
    var u := SkipRows(t, width, y);
    LayerKeepsTiles(t, width, y);
    RowIsNext(t, width, y);
    LaterRowsLeave(t, width, rows, y, q);
    hide SkipRows;
    PrefixIsMarked(u, start, start + 1, end, f, q);
    SamePrefixTile(t, u, SkipRow(u, start + 1, end), SkipRows(t, width, rows), start, f, q);
  }

  lemma RowIsNext(t: seq<Tile>, width: nat, y: nat)
    requires Row(y + 1, width) <= |t|
    ensures Row(y, width) <= |t|
    ensures SkipRows(t, width, y + 1) == SkipRow(SkipRows(t, width, y), Row(y, width) + 1, Row(y + 1, width))
  {
    hide Row, SkipRow;
    RowEnd(width, y, y + 1);
  }

  /** So the walk on the new skips finds that tile exactly if the walk on the old ones does. */
  lemma {:induction false} VisitsFirstIff(t: seq<Tile>, r: seq<Tile>, start: nat, end: nat, p: nat, f: nat)
    requires start <= p && start < f < end <= |t| && |r| == |t| && r[start] == t[start]
    requires forall q :: start < q < f ==> IsPrefixTile(t, r, start, f, q)
    ensures Visits(r, p, end, f) <==> Finds(t, start, p, f)
    decreases f - p
  {
    if p > f {
      NotBehind(r, p, end, f);
    } else if p < f {
      assert p == start || IsPrefixTile(t, r, start, f, p);
      VisitsFirstIff(t, r, start, end, p + r[p].skip + 1, f);
    }
  }

  lemma {:induction false} VisitsOn(t: seq<Tile>, p: nat, end: nat, f: nat, q: nat)
    requires end <= |t| && f <= q && Visits(t, p, end, f) && Visits(t, p, end, q)
    ensures Visits(t, f, end, q)
    decreases end - p
  {
    if p < f {
      VisitsOn(t, p + t[p].skip + 1, end, f, q);
    } else if p > f {
      NotBehind(t, p, end, f);
    }
  }

  lemma {:induction false} VisitsThen(t: seq<Tile>, p: nat, end: nat, f: nat, q: nat)
    requires end <= |t| && Visits(t, p, end, f) && Visits(t, f, end, q)
    ensures Visits(t, p, end, q)
    decreases end - p
  {
    if p != f && p != q {
      VisitsThen(t, p + t[p].skip + 1, end, f, q);
    }
  }

  /** The walk from the first column sees every tile of the row that is not empty. */
  ghost predicate SeesRow(t: seq<Tile>, start: nat, end: nat)
    requires end <= |t|
  {
    forall q :: start <= q < end && t[q].index != 0 ==> Visits(t, start, end, q)
  }

  lemma SeesRowIff(r: seq<Tile>, start: nat, end: nat, f: nat)
    requires IsFirst(r, start, end, f) && f < end && RowWalks(r, start + 1, end)
    ensures SeesRow(r, start, end) <==> Visits(r, start, end, f)
  {
    hide JumpsOverEmpty, JumpIsLongest;
    if Visits(r, start, end, f) {
      forall q | start <= q < end && r[q].index != 0
        ensures Visits(r, start, end, q)
      {
        if q > start {
          VisitsOn(r, start + 1, end, f, q);
          VisitsThen(r, start, end, f, q);
        }
      }
    }
  }

  /** In a layer with skips from before, the walk from the first column of a row sees all of it exactly if nothing is
      there to see behind that column, or the old skips lead to the first tile that is not empty, or to a marked column
      before it. A first column without a skip does. */
  lemma StaleRowIff(t: seq<Tile>, width: nat, rows: nat, y: nat, f: nat)
    requires Row(rows, width) <= |t| && y < rows && Row(y + 1, width) <= |t|
    requires IsFirst(t, Row(y, width), Row(y + 1, width), f)
    ensures var start, end := Row(y, width), Row(y + 1, width);
            && (SeesRow(SkipRows(t, width, rows), start, end) <==> f == end || Finds(t, start, start, f))
            && (t[start].skip == 0 ==> Finds(t, start, start, f))
  {
    hide Row, RowWalks, SkipRows, Visits;
    var start, end := Row(y, width), Row(y + 1, width);
    var r := SkipRows(t, width, rows);
    LayerKeepsTiles(t, width, rows);
    assert forall k :: 0 <= k < |t| ==> r[k].(skip := 0).index == t[k].(skip := 0).index;
    if f < end {
      forall q | start < q < f
        ensures IsPrefixTile(t, r, start, f, q)
      {
        PrefixOfRow(t, width, rows, y, f, q);
      }
      LayerWalks(t, width, rows, y);
      SeesRowIff(r, start, end, f);
      VisitsFirstIff(t, r, start, end, start, f);
    } else {
      EmptyRowIsSeen(r, start, end);
    }
  }

  lemma EmptyRowIsSeen(r: seq<Tile>, start: nat, end: nat)
    requires IsFirst(r, start, end, end)
    ensures SeesRow(r, start, end)
  {
  }

  /** The first column's own skip alone does not tell: here it jumps over an empty tile only, to one with an old skip
      that jumps over column 4. */
  lemma OldSkipBehindFirst() returns (t: seq<Tile>)
    ensures |t| == 6 && JumpsOverEmpty(t, 0) && !SeesRow(SkipRows(t, 6, 1), 0, 6)
  {
    hide SkipRows, SeesRow;
    var empty := Tile(0, 0, 0, 0);
    t := [empty.(skip := 1), empty, empty.(skip := 2), empty, empty.(index := 1), empty];
    assert Row(0, 6) == 0 && Row(1, 6) == 6;
    StaleRowIff(t, 6, 1, 0, 4);
    assert !Finds(t, 0, 2, 4);
  }
}
