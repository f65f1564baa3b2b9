/** The two actions of the extension on the tileset's animations: creating one
    animation per tile of the selected extent, and clearing the animations of
    the selected tiles. The frame list of every tile is held in a table
    indexed by tile id, which the actions update in place. */
module Editor {
  import opened Wrappers
  import opened Grid
  import opened Extents
  import opened Frames
  import opened Prompts

  /** What `promptInputs` collects. */
  datatype Config = Config(extent: Extent, direction: Direction, frames: int, duration: int)

  /** `getFrames` succeeds for the tile with id `id` of a list of `n` tiles. */
  ghost predicate FramesOk(n: nat, id: int, stride: int, count: int) {
    0 <= id < n && AllInRange(n, id, stride, count)
  }

  /** The frame table after every tile of `ids` was given its animation and
      every other tile kept its frames. */
  ghost function Assigned(table: seq<seq<Frame>>, ids: seq<nat>, stride: int, count: int, duration: int)
    : seq<seq<Frame>>
  {
    seq(|table|, t requires 0 <= t < |table| =>
          if t in ids then FrameList(t, stride, count, duration) else table[t])
  }

  /** The configuration's extent lies in the grid and its frame count is at
      most the frame bound. */
  predicate ConfigFits(ts: Tileset, config: Config)
    requires ts.Valid()
  {
    && InGrid(ts.TilesX(), ts.TilesY(), config.extent)
    && MaxFrames(ts.TilesX(), ts.TilesY(), config.extent, config.direction).Some?
    && config.frames <= MaxFrames(ts.TilesX(), ts.TilesY(), config.extent, config.direction).value
  }

  /** For a configuration that fits, every frame of every tile of the extent
      names a tile: `createAnimations` cannot fail. */
  lemma ConfigFitsAnimatesEveryTile(ts: Tileset, config: Config)
    requires ts.Valid() && ConfigFits(ts, config)
    ensures var ids := ExtentIds(ts.TilesX(), config.extent);
      forall k :: 0 <= k < |ids| ==>
        FramesOk(|ts.tiles|, ids[k], Stride(ts.TilesX(), config.extent, config.direction), config.frames)
  {
    var tilesX, tilesY, ex := ts.TilesX(), ts.TilesY(), config.extent;
    var ids := ExtentIds(tilesX, ex);
    forall k | 0 <= k < |ids|
      ensures FramesOk(|ts.tiles|, ids[k], Stride(tilesX, ex, config.direction), config.frames)
    {
      ExtentIdsAreExactlyTheExtent(tilesX, ex, ids[k]);
      ExtentIdsInGrid(tilesX, tilesY, ex, k);
      AllFramesInGrid(tilesX, tilesY, ex, config.direction, ids[k], config.frames);
    }
  }

  /** A configuration built from a selection whose extent has positive width
      and height and from an accepted frame-count answer fits. */
  lemma PromptedConfigFits(ts: Tileset, selected: seq<Tile>, dir: Direction, answer: NumberEntry, duration: int)
    requires ts.Valid()
    requires SelectionExtent(ts, selected).Success? && SelectionExtent(ts, selected).value.Some?
    requires SelectionExtent(ts, selected).value.value.width >= 1
    requires SelectionExtent(ts, selected).value.value.height >= 1
    requires var ex := SelectionExtent(ts, selected).value.value;
      && MaxFrames(ts.TilesX(), ts.TilesY(), ex, dir).Some?
      && FramesRule(answer, MaxFrames(ts.TilesX(), ts.TilesY(), ex, dir).value).Accepted?
    ensures var ex := SelectionExtent(ts, selected).value.value;
      var frames := FramesRule(answer, MaxFrames(ts.TilesX(), ts.TilesY(), ex, dir).value).value;
      && ConfigFits(ts, Config(ex, dir, frames, duration))
      && frames >= 1
  {
    var ex := SelectionExtent(ts, selected).value.value;
    SelectionExtentInGrid(ts, selected);
    MaxFramesIsLargestFit(ts.TilesX(), ts.TilesY(), ex, dir);
    AcceptedFramesWithinBound(answer, MaxFrames(ts.TilesX(), ts.TilesY(), ex, dir).value);
  }

  /** The selected tiles that have frames, in selection order
      (`tile.frames && tile.frames.length > 0`). */
  function AnimatedTiles(ts: Tileset, table: seq<seq<Frame>>, selected: seq<Tile>): (r: seq<Tile>)
    requires ts.Valid() && |table| == |ts.tiles|
    requires forall t :: t in selected ==> t in ts.tiles
    ensures forall t :: t in r <==> t in selected && table[IndexOf(ts.tiles, t)] != []
    ensures |r| <= |selected|
  {
    if selected == [] then []
    else
      var rest := AnimatedTiles(ts, table, selected[1..]);
      if table[IndexOf(ts.tiles, selected[0])] != [] then [selected[0]] + rest else rest
  }

  /** `filter` keeps multiplicity: an animated tile occurs in the result as
      often as it was selected, any other tile not at all. */
  lemma {:induction false} AnimatedTilesCount(ts: Tileset, table: seq<seq<Frame>>, selected: seq<Tile>)
    requires ts.Valid() && |table| == |ts.tiles|
    requires forall t :: t in selected ==> t in ts.tiles
    ensures var r := AnimatedTiles(ts, table, selected);
      forall t :: t in selected ==>
        multiset(r)[t] == if table[IndexOf(ts.tiles, t)] != [] then multiset(selected)[t] else 0
  {
    if selected != [] {
      assert selected == [selected[0]] + selected[1..];
      AnimatedTilesCount(ts, table, selected[1..]);
    }
  }

  /** What the clear action ends with. */
  datatype ClearOutcome = NothingSelected | NothingToClear | Declined | Cleared(count: nat)

  /** The frame lists of the tiles of one tileset. */
  class AnimationTable {
    const tileset: Tileset
    /** `frames[id]` is `tile.frames` of the tile with id `id`. */
    var frames: seq<seq<Frame>>

    ghost predicate Valid()
      reads this
    {
      tileset.Valid() && |frames| == |tileset.tiles|
    }

    constructor (ts: Tileset, initial: seq<seq<Frame>>)
      requires ts.Valid() && |initial| == |ts.tiles|
      ensures Valid() && tileset == ts && frames == initial
    {
      tileset := ts;
      frames := initial;
    }

    /** `createAnimations`: for each id of the extent, in enumeration order,
        gives the tile with that id its frames. The first id whose tile is
        missing (`tileset.tile(id)` is null) or whose frames run off the tile
        list stops the loop with the tiles before it already updated. */
    method CreateAnimations(config: Config) returns (error: Option<Error>)
      requires Valid()
      modifies this
      ensures Valid()
      ensures var ids := ExtentIds(tileset.TilesX(), config.extent);
        var stride := Stride(tileset.TilesX(), config.extent, config.direction);
        error.None? ==>
          && (forall k :: 0 <= k < |ids| ==> FramesOk(|tileset.tiles|, ids[k], stride, config.frames))
          && frames == Assigned(old(frames), ids, stride, config.frames, config.duration)
      ensures var ids := ExtentIds(tileset.TilesX(), config.extent);
        var stride := Stride(tileset.TilesX(), config.extent, config.direction);
        error.Some? ==>
          exists k ::
            && 0 <= k < |ids|
            && (forall j :: 0 <= j < k ==> FramesOk(|tileset.tiles|, ids[j], stride, config.frames))
            && !FramesOk(|tileset.tiles|, ids[k], stride, config.frames)
            && (ids[k] >= |tileset.tiles| ==> error == Some(TileNotFound))
            && (ids[k] < |tileset.tiles| ==> error.value.NoTileAtIndex?)
            && frames == Assigned(old(frames), ids[..k], stride, config.frames, config.duration)
      ensures ConfigFits(tileset, config) ==> error == None
    {
      if ConfigFits(tileset, config) {
        ConfigFitsAnimatesEveryTile(tileset, config);
      }
      var tilesX := tileset.TilesX();
      var stride := Stride(tilesX, config.extent, config.direction);
      var ids := TileIdsInExtent(tilesX, config.extent);
      var n := 0;
      while n < |ids|
        invariant 0 <= n <= |ids|
        invariant |frames| == |tileset.tiles|
        invariant forall j :: 0 <= j < n ==> FramesOk(|tileset.tiles|, ids[j], stride, config.frames)
        invariant frames == Assigned(old(frames), ids[..n], stride, config.frames, config.duration)
      {
        var id := ids[n];
        if id >= |tileset.tiles| {
          // `tileset.tile(id)` is null, and `getFrames` throws for it
          return Some(TileNotFound);
        }
        var tile := tileset.tiles[id];
        IndexOfDistinct(tileset, id);
        var r := GetFrames(tileset, tile, stride, config.frames, config.duration);
        if r.Failure? {
          return Some(r.error);
        }
        assert ids[..n + 1] == ids[..n] + [id];
        frames := frames[id := r.value];
        n := n + 1;
      }
      assert ids[..n] == ids;
      return None;
    }

    /** `clearAnimations`: empties the frames of the given tiles and of no
        other tile. */
    method ClearAnimations(animated: seq<Tile>)
      requires Valid() && forall t :: t in animated ==> t in tileset.tiles
      modifies this
      ensures Valid()
      ensures forall i :: 0 <= i < |frames| ==>
        frames[i] == if tileset.tiles[i] in animated then [] else old(frames)[i]
    {
      for k := 0 to |animated|
        invariant |frames| == |tileset.tiles|
        invariant forall i :: 0 <= i < |frames| ==>
          frames[i] == if tileset.tiles[i] in animated[..k] then [] else old(frames)[i]
      {
        var index := IndexOf(tileset.tiles, animated[k]);
        assert animated[..k + 1] == animated[..k] + [animated[k]];
        frames := frames[index := []];
      }
      assert animated[..|animated|] == animated;
    }

    /** `beginClearAnimations` without its dialogs: nothing happens without a
        selection, without an animated selected tile, or when the user does
        not confirm (`confirmed` is the answer of the confirmation dialog);
        otherwise the animated selected tiles are cleared, after which no
        selected tile has frames. */
    method BeginClearAnimations(selected: seq<Tile>, confirmed: bool) returns (outcome: ClearOutcome)
      requires Valid() && forall t :: t in selected ==> t in tileset.tiles
      modifies this
      ensures Valid()
      ensures outcome == NothingSelected <==> selected == []
      ensures outcome == NothingToClear <==>
        selected != [] && forall t :: t in selected ==> old(frames)[IndexOf(tileset.tiles, t)] == []
      ensures outcome.Cleared? ==> confirmed
      ensures outcome.Cleared? ==> outcome.count == |AnimatedTiles(tileset, old(frames), selected)|
      ensures outcome.Cleared? ==> forall i :: 0 <= i < |frames| ==>
        frames[i] == if tileset.tiles[i] in selected then [] else old(frames)[i]
      ensures !outcome.Cleared? ==> frames == old(frames)
      ensures outcome == Declined <==>
        (exists t :: t in selected && old(frames)[IndexOf(tileset.tiles, t)] != []) && !confirmed
    {
      if selected == [] {
        return NothingSelected;
      }
      var animated := AnimatedTiles(tileset, frames, selected);
      if animated == [] {
        return NothingToClear;
      }
      assert animated[0] in animated;
      if !confirmed {
        return Declined;
      }
      ClearAnimations(animated);
      forall i | 0 <= i < |frames| && tileset.tiles[i] in selected
        ensures frames[i] == []
      {
        IndexOfDistinct(tileset, i);
      }
      return Cleared(|animated|);
    }
  }
}
