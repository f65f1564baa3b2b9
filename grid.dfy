/** The tileset as the extension sees it: an image cut into equal tiles, the
    list of tile objects in row-major order, and the mapping between a tile's
    position in that list and its (column, row) coordinate. */
module Grid {
  import opened Wrappers

  /** The identity of a host tile object: two tiles are the same object iff
      their handles are equal. */
  type Tile = nat

  /** What a failed operation throws. */
  datatype Error =
    | TileNotFound            // "Tile not found in tileset"
    | NoTileAtIndex(index: int) // `tileset.tiles[index]` is undefined, so reading `.id` throws

  /** A tile coordinate, as built with `Qt.point(x, y)`. */
  datatype Coord = Coord(x: nat, y: nat)

  /** The part of the host tileset the extension reads. `tiles[i]` is the tile
      whose id is `i`. */
  datatype Tileset = Tileset(imageWidth: nat, imageHeight: nat,
                             tileWidth: nat, tileHeight: nat,
                             tiles: seq<Tile>)
  {
    /** Positive tile sizes that divide the image exactly, one distinct tile
        object per grid cell. */
    ghost predicate Valid() {
      && tileWidth > 0 && tileHeight > 0
      && imageWidth > 0 && imageHeight > 0
      && imageWidth % tileWidth == 0 && imageHeight % tileHeight == 0
      && |tiles| == (imageWidth / tileWidth) * (imageHeight / tileHeight)
      && forall i, j :: 0 <= i < j < |tiles| ==> tiles[i] != tiles[j]
    }

    /** Number of tile columns, `imageWidth / tileWidth`. */
    function TilesX(): (n: nat)
      requires Valid()
      ensures n > 0 && n * tileWidth == imageWidth
    {
      imageWidth / tileWidth
    }

    /** Number of tile rows, `imageHeight / tileHeight`. */
    function TilesY(): (n: nat)
      requires Valid()
      ensures n > 0 && n * tileHeight == imageHeight
      ensures |tiles| == TilesX() * n
    {
      imageHeight / tileHeight
    }
  }

  /** `Array.prototype.indexOf`: the first position of `t` in `s`, or -1. */
  function IndexOf(s: seq<Tile>, t: Tile): (r: int)
    ensures r == -1 <==> t !in s
    ensures r != -1 ==> 0 <= r < |s| && s[r] == t
    ensures r != -1 ==> forall j :: 0 <= j < r ==> s[j] != t
  {
    if |s| == 0 then -1
    else if s[0] == t then 0
    else
      var k := IndexOf(s[1..], t);
      if k == -1 then -1 else k + 1
  }

  /** In a list of distinct tiles, the tile at position `i` is found at `i`. */
  lemma IndexOfDistinct(ts: Tileset, i: nat)
    requires ts.Valid() && i < |ts.tiles|
    ensures IndexOf(ts.tiles, ts.tiles[i]) == i
  {
  }

  /** The row-major linear index of a coordinate, `y * tilesX + x`. */
  function IndexOfCoord(tilesX: nat, c: Coord): nat {
    c.y * tilesX + c.x
  }

  /** The coordinate of a linear index: `x = index % tilesX`,
      `y = Math.floor(index / tilesX)`. */
  function CoordOfIndex(tilesX: nat, index: nat): (c: Coord)
    requires tilesX > 0
    ensures c.x < tilesX
    ensures IndexOfCoord(tilesX, c) == index
  {
    Coord(index % tilesX, index / tilesX)
  }

  /** A product with a factor of at least one is at least the other factor. */
  lemma MulAtLeast(k: int, d: int)
    requires k >= 1 && d > 0
    ensures k * d >= d
  {
    assert k * d == (k - 1) * d + d;
  }

  /** Multiplying by a non-negative number keeps the order. */
  lemma MulMonotone(a: int, b: int, d: int)
    requires a <= b && d >= 0
    ensures a * d <= b * d
  {
    assert b * d - a * d == (b - a) * d;
  }

  /** Euclidean division by a positive divisor has a unique quotient and
      remainder. */
  lemma DivModUnique(n: nat, q: int, r: int, d: int)
    requires d > 0 && 0 <= r < d && n == q * d + r
    ensures n / d == q && n % d == r
  {
    var q', r' := n / d, n % d;
    assert n == q' * d + r';
    if q' < q {
      MulAtLeast(q - q', d);
      assert false;
    } else if q' > q {
      MulAtLeast(q' - q, d);
      assert false;
    }
  }

  /** Coordinate to index to coordinate is the identity for every column
      inside the grid. */
  lemma {:induction false} CoordRoundTrip(tilesX: nat, c: Coord)
    requires tilesX > 0 && c.x < tilesX
    ensures CoordOfIndex(tilesX, IndexOfCoord(tilesX, c)) == c
  {
    DivModUnique(IndexOfCoord(tilesX, c), c.y, c.x, tilesX);
  }

  /** An index lies in a `tilesX` by `tilesY` grid iff its row does. */
  lemma InGridIffRowInGrid(tilesX: nat, tilesY: nat, index: nat)
    requires tilesX > 0
    ensures index < tilesX * tilesY <==> CoordOfIndex(tilesX, index).y < tilesY
  {
    var c := CoordOfIndex(tilesX, index);
    assert index == c.y * tilesX + c.x;
    if c.y < tilesY {
      MulMonotone(c.y + 1, tilesY, tilesX);
      assert (c.y + 1) * tilesX == c.y * tilesX + tilesX;
    } else {
      MulMonotone(tilesY, c.y, tilesX);
    }
  }

  /** `getTileCoord`: the coordinate of a tile of the tileset, found through
      its position in `tileset.tiles`; throws for a tile that is not in it. */
  function TileCoord(ts: Tileset, tile: Tile): (r: Result<Coord, Error>)
    requires ts.Valid()
    ensures r.Failure? <==> tile !in ts.tiles
    ensures r.Failure? ==> r.error == TileNotFound
    ensures r.Success? ==> r.value.x < ts.TilesX() && r.value.y < ts.TilesY()
    ensures r.Success? ==> IndexOfCoord(ts.TilesX(), r.value) < |ts.tiles|
    ensures r.Success? ==> ts.tiles[IndexOfCoord(ts.TilesX(), r.value)] == tile
  {
    var index := IndexOf(ts.tiles, tile);
    if index < 0 then Failure(TileNotFound)
    else
      var tilesX, tilesY := ts.TilesX(), ts.TilesY();
      InGridIffRowInGrid(tilesX, tilesY, index);
      Success(CoordOfIndex(tilesX, index))
  }

  /** The tile at a coordinate of the grid has that coordinate. */
  lemma TileCoordOfCell(ts: Tileset, c: Coord)
    requires ts.Valid() && c.x < ts.TilesX() && c.y < ts.TilesY()
    ensures IndexOfCoord(ts.TilesX(), c) < |ts.tiles|
    ensures TileCoord(ts, ts.tiles[IndexOfCoord(ts.TilesX(), c)]) == Success(c)
  {
    var i := IndexOfCoord(ts.TilesX(), c);
    CoordRoundTrip(ts.TilesX(), c);
    InGridIffRowInGrid(ts.TilesX(), ts.TilesY(), i);
    IndexOfDistinct(ts, i);
  }
}
