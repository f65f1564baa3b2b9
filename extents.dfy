/** The selection's bounding rectangle, the step between animation frames, how
    many frames fit in the tileset, and the enumeration of the tile ids of a
    rectangle. */
module Extents {
  import opened Wrappers
  import opened Grid

  /** A rectangle of tiles, as built with `Qt.rect(x, y, width, height)`.
      Nothing checks the shape of the selection, so `width` and `height` can
      be zero or negative. */
  datatype Extent = Extent(x: nat, y: nat, width: int, height: int)

  /** Where the remaining frames of an animation lie: the prompt's "r" or "d". */
  datatype Direction = Right | Down

  /** The extent is non-empty and lies inside a `tilesX` by `tilesY` grid. */
  predicate InGrid(tilesX: nat, tilesY: nat, ex: Extent) {
    && ex.width >= 1 && ex.height >= 1
    && ex.x + ex.width <= tilesX && ex.y + ex.height <= tilesY
  }

  /** The coordinate lies in the extent. */
  predicate Contains(ex: Extent, c: Coord) {
    ex.x <= c.x < ex.x + ex.width && ex.y <= c.y < ex.y + ex.height
  }

  /** `getSelectionExtent`: the rectangle spanned by the first and the last
      selected tile, anchored at the first; `None` stands for the `null`
      returned when nothing is selected. */
  function SelectionExtent(ts: Tileset, selected: seq<Tile>): (r: Result<Option<Extent>, Error>)
    requires ts.Valid()
    ensures r == Success(None) <==> selected == []
    ensures r.Failure? <==> selected != [] && (selected[0] !in ts.tiles || selected[|selected| - 1] !in ts.tiles)
    ensures r.Failure? ==> r.error == TileNotFound
    ensures r.Success? && r.value.Some? ==>
      var ex := r.value.value;
      && ex.x < ts.TilesX() && ex.y < ts.TilesY()
      && IndexOfCoord(ts.TilesX(), Coord(ex.x, ex.y)) < |ts.tiles|
      && ts.tiles[IndexOfCoord(ts.TilesX(), Coord(ex.x, ex.y))] == selected[0]
      && 0 <= ex.x + ex.width - 1 < ts.TilesX() && 0 <= ex.y + ex.height - 1 < ts.TilesY()
      && IndexOfCoord(ts.TilesX(), Coord(ex.x + ex.width - 1, ex.y + ex.height - 1)) < |ts.tiles|
      && ts.tiles[IndexOfCoord(ts.TilesX(), Coord(ex.x + ex.width - 1, ex.y + ex.height - 1))]
         == selected[|selected| - 1]
  {
    if |selected| == 0 then Success(None)
    else
      match TileCoord(ts, selected[0])
      case Failure(e) => Failure(e)
      case Success(topLeft) =>
        match TileCoord(ts, selected[|selected| - 1])
        case Failure(e) => Failure(e)
        case Success(bottomRight) =>
          Success(Some(Extent(topLeft.x, topLeft.y,
                              bottomRight.x - topLeft.x + 1,
                              bottomRight.y - topLeft.y + 1)))
  }

  /** A selection whose extent has positive width and height lies inside the
      grid. */
  lemma SelectionExtentInGrid(ts: Tileset, selected: seq<Tile>)
    requires ts.Valid()
    requires SelectionExtent(ts, selected).Success? && SelectionExtent(ts, selected).value.Some?
    requires SelectionExtent(ts, selected).value.value.width >= 1
    requires SelectionExtent(ts, selected).value.value.height >= 1
    ensures InGrid(ts.TilesX(), ts.TilesY(), SelectionExtent(ts, selected).value.value)
  {
  }

  /** A selection that starts at the top-left tile of a rectangle of the grid
      and ends at its bottom-right tile has exactly that rectangle as its
      extent. */
  lemma SelectionExtentOfCorners(ts: Tileset, selected: seq<Tile>, ex: Extent)
    requires ts.Valid() && InGrid(ts.TilesX(), ts.TilesY(), ex) && selected != []
    requires IndexOfCoord(ts.TilesX(), Coord(ex.x, ex.y)) < |ts.tiles|
    requires selected[0] == ts.tiles[IndexOfCoord(ts.TilesX(), Coord(ex.x, ex.y))]
    requires IndexOfCoord(ts.TilesX(), Coord(ex.x + ex.width - 1, ex.y + ex.height - 1)) < |ts.tiles|
    requires selected[|selected| - 1]
             == ts.tiles[IndexOfCoord(ts.TilesX(), Coord(ex.x + ex.width - 1, ex.y + ex.height - 1))]
    ensures SelectionExtent(ts, selected) == Success(Some(ex))
  {
    TileCoordOfCell(ts, Coord(ex.x, ex.y));
    TileCoordOfCell(ts, Coord(ex.x + ex.width - 1, ex.y + ex.height - 1));
  }

  /** `getStride`: the step between the linear indices of consecutive frames:
      one extent-width along the row (`Right`), or a whole number of rows, as
      many as the extent is high (`Down`). */
  function Stride(tilesX: nat, ex: Extent, dir: Direction): (s: int)
    ensures dir == Right ==> s == ex.width
    ensures dir == Down && tilesX > 0 ==> s % tilesX == 0 && s / tilesX == ex.height
  {
    match dir
    case Right => ex.width
    case Down => WholeRows(tilesX, ex.height); tilesX * ex.height
  }

  /** `tilesX * h` is exactly `h` rows of `tilesX` tiles. */
  lemma WholeRows(tilesX: nat, h: int)
    ensures tilesX > 0 ==> (tilesX * h) % tilesX == 0 && (tilesX * h) / tilesX == h
  {
    if tilesX == 0 {
    } else if h >= 0 {
      DivModUnique(tilesX * h, h, 0, tilesX);
    } else {
      var q, r := (tilesX * h) / tilesX, (tilesX * h) % tilesX;
      assert tilesX * h == q * tilesX + r;
      assert (h - q) * tilesX == r;
      if h - q >= 1 {
        MulAtLeast(h - q, tilesX);
        assert false;
      } else if h - q <= -1 {
        MulAtLeast(q - h, tilesX);
        assert false;
      }
    }
  }

  /** One stride moves a tile one extent-width right (`Right`) or one
      extent-height down in the same column (`Down`). */
  lemma StrideMovesOneExtent(tilesX: nat, ex: Extent, dir: Direction, c: Coord)
    requires ex.width >= 1 && ex.height >= 1
    ensures dir == Right ==>
      IndexOfCoord(tilesX, c) + Stride(tilesX, ex, dir) == IndexOfCoord(tilesX, Coord(c.x + ex.width, c.y))
    ensures dir == Down ==>
      IndexOfCoord(tilesX, c) + Stride(tilesX, ex, dir) == IndexOfCoord(tilesX, Coord(c.x, c.y + ex.height))
  {
    assert (c.y + ex.height) * tilesX == c.y * tilesX + tilesX * ex.height;
  }

  /** `Math.floor(a / b)` for integers, for either sign of `b`. */
  function FloorDiv(a: int, b: int): (q: int)
    requires b != 0
    ensures b > 0 ==> q * b <= a < q * b + b
    ensures b < 0 ==> q * b + b < a <= q * b
  {
    if b > 0 then a / b else (-a) / (-b)
  }

  /** `getMaxFrames`: one frame for the selection itself plus the number of
      whole extent-sized pages that fit to its right (`Right`) or below it
      (`Down`). `None` stands for the non-finite number the division yields
      when the extent has zero width (`Right`) or zero height (`Down`). */
  function MaxFrames(tilesX: nat, tilesY: nat, ex: Extent, dir: Direction): (r: Option<int>)
    ensures r.None? <==> (if dir == Right then ex.width else ex.height) == 0
  {
    match dir
    case Right =>
      if ex.width == 0 then None
      else Some(1 + FloorDiv(tilesX - (ex.x + ex.width), ex.width))
    case Down =>
      if ex.height == 0 then None
      else Some(1 + FloorDiv(tilesY - (ex.y + ex.height), ex.height))
  }

  /** For an extent inside the grid, the frame bound is at least one, that
      many extent-sized pages starting at the extent fit in the grid, and one
      more would not. */
  lemma MaxFramesIsLargestFit(tilesX: nat, tilesY: nat, ex: Extent, dir: Direction)
    requires InGrid(tilesX, tilesY, ex)
    ensures MaxFrames(tilesX, tilesY, ex, dir).Some?
    ensures MaxFrames(tilesX, tilesY, ex, dir).value >= 1
    ensures dir == Right ==>
      var m := MaxFrames(tilesX, tilesY, ex, dir).value;
      ex.x + m * ex.width <= tilesX < ex.x + (m + 1) * ex.width
    ensures dir == Down ==>
      var m := MaxFrames(tilesX, tilesY, ex, dir).value;
      ex.y + m * ex.height <= tilesY < ex.y + (m + 1) * ex.height
  {
    match dir
    case Right =>
      var q := FloorDiv(tilesX - (ex.x + ex.width), ex.width);
      MulAtLeast(q + 1, ex.width);
      assert (1 + q) * ex.width == q * ex.width + ex.width;
      assert (1 + q + 1) * ex.width == q * ex.width + ex.width + ex.width;
    case Down =>
      var q := FloorDiv(tilesY - (ex.y + ex.height), ex.height);
      MulAtLeast(q + 1, ex.height);
      assert (1 + q) * ex.height == q * ex.height + ex.height;
      assert (1 + q + 1) * ex.height == q * ex.height + ex.height + ex.height;
  }

  /** The coordinate of the `k`-th id of an extent enumerated column by
      column: column `x + k / height`, row `y + k % height`. */
  function ColumnMajorCoord(ex: Extent, k: nat): Coord
    requires ex.height > 0
  {
    Coord(ex.x + k / ex.height, ex.y + k % ex.height)
  }

  /** The linear ids of the tiles of an extent, column by column, each column
      from top to bottom. */
  function ExtentIds(tilesX: nat, ex: Extent): seq<nat> {
    if ex.width <= 0 || ex.height <= 0 then []
    else seq(ex.width * ex.height, k requires 0 <= k =>
               IndexOfCoord(tilesX, ColumnMajorCoord(ex, k)))
  }

  /** `getTileIdsInExtent`: for each column of the extent, for each of its
      rows, the id `y * tilesX + x`. */
  method TileIdsInExtent(tilesX: nat, ex: Extent) returns (ids: seq<nat>)
    ensures ids == ExtentIds(tilesX, ex)
  {
    ids := [];
    var x := ex.x;
    while x < ex.x + ex.width
      invariant ex.x <= x <= ex.x + (if ex.width > 0 then ex.width else 0)
      invariant ex.height <= 0 ==> ids == []
      invariant ex.height > 0 ==> |ids| == (x - ex.x) * ex.height
      invariant ex.height > 0 ==>
        forall k :: 0 <= k < |ids| ==> ids[k] == IndexOfCoord(tilesX, ColumnMajorCoord(ex, k))
    {
      var y := ex.y;
      while y < ex.y + ex.height
        invariant ex.y <= y && (ex.height > 0 ==> y <= ex.y + ex.height)
        invariant ex.height <= 0 ==> ids == []
        invariant ex.height > 0 ==> |ids| == (x - ex.x) * ex.height + (y - ex.y)
        invariant ex.height > 0 ==>
          forall k :: 0 <= k < |ids| ==> ids[k] == IndexOfCoord(tilesX, ColumnMajorCoord(ex, k))
      {
        DivModUnique(|ids|, x - ex.x, y - ex.y, ex.height);
        ids := ids + [y * tilesX + x];
        y := y + 1;
      }
      assert ex.height > 0 ==> (x - ex.x) * ex.height + ex.height == (x + 1 - ex.x) * ex.height;
      x := x + 1;
    }
    if ex.width > 0 && ex.height > 0 {
      assert |ids| == ex.width * ex.height;
      assert forall k :: 0 <= k < |ids| ==> ids[k] == ExtentIds(tilesX, ex)[k];
    }
  }

  /** The position of coordinate `c` in the column-major enumeration. */
  function ColumnMajorPos(ex: Extent, c: Coord): int {
    (c.x - ex.x) * ex.height + (c.y - ex.y)
  }

  /** The `k`-th enumerated id lies in the extent, at the `k`-th position of
      the column-major scan, and position and coordinate determine each
      other. */
  lemma ColumnMajorCoordInExtent(ex: Extent, k: nat)
    requires ex.width >= 1 && ex.height >= 1 && k < ex.width * ex.height
    ensures Contains(ex, ColumnMajorCoord(ex, k))
    ensures ColumnMajorPos(ex, ColumnMajorCoord(ex, k)) == k
  {
    var q := k / ex.height;
    assert k == q * ex.height + k % ex.height;
    if q >= ex.width {
      MulMonotone(ex.width, q, ex.height);
      assert false;
    }
  }

  /** Every coordinate of the extent is enumerated, at its column-major
      position. */
  lemma ColumnMajorCoordCovers(ex: Extent, c: Coord)
    requires ex.width >= 1 && ex.height >= 1 && Contains(ex, c)
    ensures 0 <= ColumnMajorPos(ex, c) < ex.width * ex.height
    ensures ColumnMajorCoord(ex, ColumnMajorPos(ex, c)) == c
  {
    var p := ColumnMajorPos(ex, c);
    MulMonotone(c.x - ex.x + 1, ex.width, ex.height);
    assert (c.x - ex.x + 1) * ex.height == (c.x - ex.x) * ex.height + ex.height;
    DivModUnique(p, c.x - ex.x, c.y - ex.y, ex.height);
  }

  /** For an extent whose columns lie in the grid, an id is enumerated iff its
      coordinate lies in the extent, and the `k`-th id has the `k`-th
      column-major coordinate. */
  lemma {:induction false} ExtentIdsAreExactlyTheExtent(tilesX: nat, ex: Extent, id: nat)
    requires tilesX > 0 && ex.width >= 1 && ex.height >= 1 && ex.x + ex.width <= tilesX
    ensures id in ExtentIds(tilesX, ex) <==> Contains(ex, CoordOfIndex(tilesX, id))
    ensures forall k :: 0 <= k < |ExtentIds(tilesX, ex)| ==>
      CoordOfIndex(tilesX, ExtentIds(tilesX, ex)[k]) == ColumnMajorCoord(ex, k)
  {
    var ids := ExtentIds(tilesX, ex);
    forall k | 0 <= k < |ids|
      ensures CoordOfIndex(tilesX, ids[k]) == ColumnMajorCoord(ex, k)
      ensures Contains(ex, ColumnMajorCoord(ex, k))
    {
      ColumnMajorCoordInExtent(ex, k);
      CoordRoundTrip(tilesX, ColumnMajorCoord(ex, k));
    }
    var c := CoordOfIndex(tilesX, id);
    if Contains(ex, c) {
      ColumnMajorCoordCovers(ex, c);
      assert ids[ColumnMajorPos(ex, c)] == id;
    }
  }

  /** For an extent whose columns lie in the grid, the enumeration is strictly
      increasing in (column, row) order, so no id repeats. */
  lemma {:induction false} ExtentIdsColumnMajor(tilesX: nat, ex: Extent, k1: nat, k2: nat)
    requires tilesX > 0 && ex.width >= 1 && ex.height >= 1 && ex.x + ex.width <= tilesX
    requires k1 < k2 < |ExtentIds(tilesX, ex)|
    ensures var c1, c2 := ColumnMajorCoord(ex, k1), ColumnMajorCoord(ex, k2);
      c1.x < c2.x || (c1.x == c2.x && c1.y < c2.y)
    ensures ExtentIds(tilesX, ex)[k1] != ExtentIds(tilesX, ex)[k2]
  {
    var c1, c2 := ColumnMajorCoord(ex, k1), ColumnMajorCoord(ex, k2);
    ColumnMajorCoordInExtent(ex, k1);
    ColumnMajorCoordInExtent(ex, k2);
    if c1.x > c2.x || (c1.x == c2.x && c1.y >= c2.y) {
      MulMonotone(c2.x - ex.x + 1, c1.x - ex.x, ex.height);
      assert false;
    }
    CoordRoundTrip(tilesX, c1);
    CoordRoundTrip(tilesX, c2);
  }

  /** For an extent inside the grid, every enumerated id is a tile of the
      grid. */
  lemma ExtentIdsInGrid(tilesX: nat, tilesY: nat, ex: Extent, k: nat)
    requires tilesX > 0 && InGrid(tilesX, tilesY, ex) && k < |ExtentIds(tilesX, ex)|
    ensures ExtentIds(tilesX, ex)[k] < tilesX * tilesY
  {
    ExtentIdsAreExactlyTheExtent(tilesX, ex, ExtentIds(tilesX, ex)[k]);
    InGridIffRowInGrid(tilesX, tilesY, ExtentIds(tilesX, ex)[k]);
  }
}
