/** The frame list of one animation: `count` frames starting at a tile and
    stepping by a stride through the tileset. */
module Frames {
  import opened Wrappers
  import opened Grid
  import opened Extents

  /** One animation frame, `{tileId, duration}`. */
  datatype Frame = Frame(tileId: int, duration: int)

  /** The linear index of the `i`-th frame. */
  function FrameIndex(base: int, stride: int, i: int): int {
    base + i * stride
  }

  /** The first `count` frame indices all name one of `n` tiles. */
  ghost predicate AllInRange(n: nat, base: int, stride: int, count: int) {
    forall i :: 0 <= i < count ==> 0 <= FrameIndex(base, stride, i) < n
  }

  /** The frames of an animation whose indices all name tiles: the `i`-th
      shows the tile at `base + i * stride` for `duration`. */
  function FrameList(base: int, stride: int, count: int, duration: int): seq<Frame> {
    seq(if count > 0 then count else 0, i => Frame(FrameIndex(base, stride, i), duration))
  }

  /** `getFrames`: throws when the tile is not in the tileset, and when a
      frame index runs off the tile list (`tileset.tiles[tileIndex]` is
      undefined); otherwise returns `maxFrames` frames (none when it is not
      positive). The tile at index `i` has id `i`. */
  method GetFrames(ts: Tileset, tile: Tile, stride: int, maxFrames: int, duration: int)
    returns (r: Result<seq<Frame>, Error>)
    requires ts.Valid()
    ensures tile !in ts.tiles ==> r == Failure(TileNotFound)
    ensures tile in ts.tiles ==>
      (r.Success? <==> AllInRange(|ts.tiles|, IndexOf(ts.tiles, tile), stride, maxFrames))
    ensures r.Success? ==> |r.value| == (if maxFrames > 0 then maxFrames else 0)
    ensures r.Success? ==> forall i :: 0 <= i < |r.value| ==>
      r.value[i] == Frame(FrameIndex(IndexOf(ts.tiles, tile), stride, i), duration)
    ensures r.Success? ==> r.value == FrameList(IndexOf(ts.tiles, tile), stride, maxFrames, duration)
    ensures r.Failure? && tile in ts.tiles ==>
      exists k :: 0 <= k < maxFrames
        && r.error == NoTileAtIndex(FrameIndex(IndexOf(ts.tiles, tile), stride, k))
        && AllInRange(|ts.tiles|, IndexOf(ts.tiles, tile), stride, k)
        && !(0 <= FrameIndex(IndexOf(ts.tiles, tile), stride, k) < |ts.tiles|)
  {
    var frames := [];
    var tileIndex := IndexOf(ts.tiles, tile);
    if tileIndex < 0 {
      return Failure(TileNotFound);
    }
    ghost var base := tileIndex;
    var i := 0;
    while i < maxFrames
      invariant 0 <= i && (maxFrames > 0 ==> i <= maxFrames)
      invariant maxFrames <= 0 ==> i == 0
      invariant tileIndex == FrameIndex(base, stride, i)
      invariant AllInRange(|ts.tiles|, base, stride, i)
      invariant frames == FrameList(base, stride, i, duration)
    {
      if !(0 <= tileIndex < |ts.tiles|) {
        return Failure(NoTileAtIndex(tileIndex));
      }
      frames := frames + [Frame(tileIndex, duration)];
      tileIndex := tileIndex + stride;
      i := i + 1;
    }
    if maxFrames > 0 {
      assert i == maxFrames;
    }
    return Success(frames);
  }

  /** Within `m` whole pages of size `size` starting at `start`, inside a
      line of length `len`, page `i` of a cell of the first page stays in the
      line. */
  lemma PageStaysInLine(pos: int, start: int, size: int, len: int, m: int, i: int)
    requires size >= 1 && start <= pos < start + size && start + m * size <= len && 0 <= i < m
    ensures pos + i * size < len
  {
    MulMonotone(i + 1, m, size);
    assert (i + 1) * size == i * size + size;
  }

  /** The `i`-th frame of an animation whose first tile lies in an extent
      inside the grid, taken no further than the frame bound: it is a tile of
      the grid, in the first tile's row `i` extent-widths to the right
      (`Right`) or in its column `i` extent-heights further down (`Down`). */
  lemma FrameInGrid(tilesX: nat, tilesY: nat, ex: Extent, dir: Direction, base: nat, count: int, i: int)
    requires tilesX > 0 && InGrid(tilesX, tilesY, ex)
    requires Contains(ex, CoordOfIndex(tilesX, base))
    requires MaxFrames(tilesX, tilesY, ex, dir).Some? && count <= MaxFrames(tilesX, tilesY, ex, dir).value
    requires 0 <= i < count
    ensures 0 <= FrameIndex(base, Stride(tilesX, ex, dir), i) < tilesX * tilesY
    ensures var c := CoordOfIndex(tilesX, base);
      CoordOfIndex(tilesX, FrameIndex(base, Stride(tilesX, ex, dir), i))
      == (if dir == Right then Coord(c.x + i * ex.width, c.y) else Coord(c.x, c.y + i * ex.height))
  {
    var c := CoordOfIndex(tilesX, base);
    InGridIffRowInGrid(tilesX, tilesY, base);
    MaxFramesIsLargestFit(tilesX, tilesY, ex, dir);
    var m := MaxFrames(tilesX, tilesY, ex, dir).value;
    var d := if dir == Right then Coord(c.x + i * ex.width, c.y) else Coord(c.x, c.y + i * ex.height);
    if dir == Right {
      PageStaysInLine(c.x, ex.x, ex.width, tilesX, m, i);
    } else {
      PageStaysInLine(c.y, ex.y, ex.height, tilesY, m, i);
      DownStride(tilesX, c, ex.height, i);
    }
    assert FrameIndex(base, Stride(tilesX, ex, dir), i) == IndexOfCoord(tilesX, d);
    CoordRoundTrip(tilesX, d);
    InGridIffRowInGrid(tilesX, tilesY, IndexOfCoord(tilesX, d));
  }

  /** `i` strides of `tilesX * h` move a coordinate `i * h` rows down. */
  lemma DownStride(tilesX: nat, c: Coord, h: nat, i: nat)
    ensures IndexOfCoord(tilesX, c) + i * (tilesX * h) == IndexOfCoord(tilesX, Coord(c.x, c.y + i * h))
  {
    assert i * (tilesX * h) == (i * h) * tilesX;
    assert (c.y + i * h) * tilesX == c.y * tilesX + (i * h) * tilesX;
  }

  /** Every frame of such an animation names a tile of the grid. */
  lemma AllFramesInGrid(tilesX: nat, tilesY: nat, ex: Extent, dir: Direction, base: nat, count: int)
    requires tilesX > 0 && InGrid(tilesX, tilesY, ex)
    requires Contains(ex, CoordOfIndex(tilesX, base))
    requires MaxFrames(tilesX, tilesY, ex, dir).Some? && count <= MaxFrames(tilesX, tilesY, ex, dir).value
    ensures AllInRange(tilesX * tilesY, base, Stride(tilesX, ex, dir), count)
  {
    forall i | 0 <= i < count
      ensures 0 <= FrameIndex(base, Stride(tilesX, ex, dir), i) < tilesX * tilesY
    {
      FrameInGrid(tilesX, tilesY, ex, dir, base, count, i);
    }
  }

  /** One frame more than the bound would not fit: for the extent's last
      column it would lie past the end of the row (`Right`), for its last row
      past the end of the tileset (`Down`). */
  lemma FrameBeyondBoundLeaves(tilesX: nat, tilesY: nat, ex: Extent, dir: Direction)
    requires tilesX > 0 && InGrid(tilesX, tilesY, ex)
    ensures var m := MaxFrames(tilesX, tilesY, ex, dir).value;
      dir == Right ==> ex.x + ex.width - 1 + m * ex.width >= tilesX
    ensures var m := MaxFrames(tilesX, tilesY, ex, dir).value;
      dir == Down ==>
        FrameIndex(IndexOfCoord(tilesX, Coord(ex.x, ex.y + ex.height - 1)), Stride(tilesX, ex, dir), m)
        >= tilesX * tilesY
  {
    MaxFramesIsLargestFit(tilesX, tilesY, ex, dir);
    var m := MaxFrames(tilesX, tilesY, ex, dir).value;
    match dir
    case Right =>
      assert (m + 1) * ex.width == m * ex.width + ex.width;
    case Down =>
      assert (m + 1) * ex.height == m * ex.height + ex.height;
      var y := ex.y + ex.height - 1 + m * ex.height;
      assert y >= tilesY;
      assert m * (tilesX * ex.height) == (m * ex.height) * tilesX;
      assert y * tilesX == (ex.y + ex.height - 1) * tilesX + (m * ex.height) * tilesX;
      MulMonotone(tilesY, y, tilesX);
  }
}
