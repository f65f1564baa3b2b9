# Bulk animations for Tiled tilesets: a verified model

The Tiled extension in `bulk-animations/bulk-animations.js` turns a selection of
tiles in a tileset into one animation per selected tile. The tileset image is cut
into a grid of `tilesX` columns and `tilesY` rows. Tile ids are assigned row by
row, so the tile in column `x` and row `y` has id `y * tilesX + x`. The user
selects a block of tiles that holds the first frame of every animation and says
whether the remaining frames lie to the right (`r`) or below (`d`). The extension
then gives every tile of the block a list of frames, each one extent-sized page
further along. A second action clears the animations of the selected tiles.

This project models that engine and proves properties of it:

- `Grid` (`grid.dfy`) covers the tileset's geometry. It has the list of tile
  objects, `indexOf` on that list, the mapping between an index and a coordinate
  (`getTileCoord`), and the round trip between the two.
- `Extents` (`extents.dfy`) covers the selection. It computes the selection's
  bounding rectangle (`getSelectionExtent`), the stride between frames
  (`getStride`), the frame bound (`getMaxFrames`) and the column-major list of
  the rectangle's tile ids (`getTileIdsInExtent`, a nested loop).
- `Frames` (`frames.dfy`) holds `getFrames`, a loop. It also proves that frames
  within the bound stay in the grid, in the first tile's row or column.
- `Prompts` (`prompts.dfy`) holds the rules the three prompt loops apply to one
  answer: direction, frame count and duration.
- `Editor` (`editor.dfy`) holds the per-tile frame table, a class whose methods
  update it in place. `createAnimations`, `clearAnimations`, and the core of
  `beginClearAnimations` are modelled. It also proves that a configuration built
  from a selection and an accepted frame count never makes `createAnimations`
  fail.
- `Wrappers` (`wrappers.dfy`) has `Option`, for `null` returns, and `Result`, for
  thrown errors.

Modelling choices:

- A tile object is a handle (`Grid.Tile`), and the tileset's `tiles` is a list
  of distinct handles. The tile at position `i` has id `i`.
- The image width and height are exact multiples of the tile size. So `tilesX`
  and `tilesY` are positive integers, and the tileset holds
  `tilesX * tilesY` tiles.
- Tile spacing and margin are taken to be zero. The code only prints them.
- `Math.floor(a / b)` on integers is `Extents.FloorDiv`, which is exact for both
  signs of `b`.
- A division by zero in `getMaxFrames` gives a non-finite number. The model
  returns `None` instead.
- `getFrames` reads `tileset.tiles[tileIndex].id`. When the index is past the
  list, that read throws. The model returns `NoTileAtIndex` for it.
- `getSelectionExtent` does not check the selection's shape. An extent can have
  a zero or negative width or height, and then `getTileIdsInExtent` yields
  nothing.

The code has only the directions `r` and `d`, with no combined mode. It has no rectangularity
check: `tests/bulk-animations.spec.js` calls an `isSelectionRectangular` that
the extension does not define. It has no user-chosen stride: the stride is always
the extent's width, or `tilesX` times its height. The model follows the code.

## Model

| member | source | states |
|---|---|---|
| `Grid.Tileset.TilesX` | bulk-animations/bulk-animations.js:220 | the column count is positive and times the tile width gives exactly the image width |
| `Grid.Tileset.TilesY` | bulk-animations/bulk-animations.js:199 | the row count is positive, times the tile height gives the image height, and columns times rows is the number of tiles |
| `Grid.IndexOf` | bulk-animations/bulk-animations.js:221 | `indexOf` gives -1 exactly when the tile is absent, and otherwise the first position that holds it |
| `Grid.IndexOfDistinct` | bulk-animations/bulk-animations.js:273 | in the tileset's list of distinct tiles, the tile at position `i` is found at `i` (its id) |
| `Grid.CoordOfIndex` | bulk-animations/bulk-animations.js:225-226 | the coordinate has column `< tilesX`, and `y * tilesX + x` gives back the index |
| `Grid.CoordRoundTrip` | bulk-animations/bulk-animations.js:225-226 | coordinate → index → coordinate is the identity for every column inside the grid |
| `Grid.InGridIffRowInGrid` | bulk-animations/bulk-animations.js:226 | an index is below `tilesX * tilesY` iff its row is below `tilesY` |
| `Grid.TileCoord` | bulk-animations/bulk-animations.js:218-228 | `getTileCoord` fails with "not found" iff the tile is not in the tileset; otherwise the coordinate is inside the grid and its row-major index holds that very tile |
| `Grid.TileCoordOfCell` | bulk-animations/bulk-animations.js:218-228 | the tile at any grid coordinate has that coordinate |
| `Extents.SelectionExtent` | bulk-animations/bulk-animations.js:230-242 | `null` (None) iff nothing is selected; fails iff the first or last selected tile is not in the tileset; otherwise the anchor is the first tile's coordinate and the far corner `(x + width - 1, y + height - 1)` is the last tile's coordinate, both in the grid |
| `Extents.SelectionExtentInGrid` | bulk-animations/bulk-animations.js:235-241 | an extent with positive width and height lies entirely inside the grid |
| `Extents.SelectionExtentOfCorners` | bulk-animations/bulk-animations.js:235-241 | a selection starting at a rectangle's top-left tile and ending at its bottom-right tile has exactly that rectangle as extent |
| `Extents.Stride` | bulk-animations/bulk-animations.js:244-252 | the width of the extent for `r`; for `d` a whole number of rows (a multiple of `tilesX`), as many as the extent is high |
| `Extents.StrideMovesOneExtent` | bulk-animations/bulk-animations.js:244-252 | one stride moves a tile one extent-width right (`r`), or one extent-height down in the same column (`d`, stride `tilesX * height`) |
| `Extents.FloorDiv` | bulk-animations/bulk-animations.js:197 | the result is the floor of `a / b`, for either sign of `b` |
| `Extents.MaxFrames` | bulk-animations/bulk-animations.js:192-203 | the bound is non-finite (None) exactly when the divisor, the width for `r` or the height for `d`, is zero |
| `Extents.MaxFramesIsLargestFit` | bulk-animations/bulk-animations.js:192-203 | for an extent inside the grid the bound `m` is at least 1, `m` extent-sized pages from the extent fit (`x + m*width <= tilesX`, and likewise for rows), and `m + 1` pages do not |
| `Extents.TileIdsInExtent` | bulk-animations/bulk-animations.js:254-263 | the nested loop yields exactly the column-major enumeration: `width*height` ids (none if either is not positive), the `k`-th being `(y + k % height) * tilesX + (x + k / height)` |
| `Extents.ExtentIdsAreExactlyTheExtent` | bulk-animations/bulk-animations.js:257-259 | when the extent's columns lie in the grid, an id is enumerated iff its coordinate lies in the extent, and the `k`-th id has the `k`-th column-major coordinate |
| `Extents.ExtentIdsColumnMajor` | bulk-animations/bulk-animations.js:257-258 | the enumeration is strictly increasing in (column, row) order, with the outer loop over columns, so no id repeats |
| `Extents.ExtentIdsInGrid` | bulk-animations/bulk-animations.js:254-263 | for an extent inside the grid every enumerated id is a tile of the tileset |
| `Frames.GetFrames` | bulk-animations/bulk-animations.js:269-286 | throws "not found" iff the tile is absent; otherwise succeeds iff every frame index names a tile, with exactly `maxFrames` frames (none if not positive), frame `i` showing tile `base + i*stride` with the one duration; on failure the error names the first index that runs off |
| `Frames.FrameInGrid` | bulk-animations/bulk-animations.js:277-284 | for a first tile inside an extent in the grid and a count within the bound, frame `i` is a tile of the grid and lies in the first tile's row, `i` widths right (`r`), or its column, `i` heights down (`d`) |
| `Frames.AllFramesInGrid` | bulk-animations/bulk-animations.js:277-284 | under the same conditions every frame index names a tile of the grid |
| `Frames.FrameBeyondBoundLeaves` | bulk-animations/bulk-animations.js:192-203 | one frame beyond the bound would put the extent's last column past the row end (`r`), or its last row past the tileset's end (`d`) |
| `Prompts.DefaultDirection` | bulk-animations/bulk-animations.js:158 | the offered direction is `r` iff the image is at least as wide as it is high |
| `Prompts.DirectionRule` | bulk-animations/bulk-animations.js:162-166 | an empty answer aborts; the answer is accepted as `r` or `d` iff its first character is `r`/`R` or `d`/`D`; anything else is asked again |
| `Prompts.DefaultDirectionAccepted` | bulk-animations/bulk-animations.js:158-165 | accepting the offered default gives the default direction, and each direction's letter is accepted as it |
| `Prompts.FramesRule` | bulk-animations/bulk-animations.js:177-188 | an empty answer aborts; it accepts exactly the counts `0` and `1..maxFrames`, taking `0` as `maxFrames` and any other as itself; NaN, negative and over-bound counts are asked again, never clamped |
| `Prompts.AcceptedFramesWithinBound` | bulk-animations/bulk-animations.js:183-188 | with a bound of at least one, an accepted count lies in `1..maxFrames` |
| `Prompts.DurationRule` | bulk-animations/bulk-animations.js:208-214 | an empty answer aborts; it accepts exactly positive durations, unchanged |
| `Editor.ConfigFitsAnimatesEveryTile` | bulk-animations/bulk-animations.js:27-48 | for an extent inside the grid and a count within the bound, `getFrames` succeeds for every enumerated tile |
| `Editor.PromptedConfigFits` | bulk-animations/bulk-animations.js:111-127 | a selection with positive-size extent plus an accepted frame-count answer gives a configuration that fits, with at least one frame |
| `Editor.AnimatedTiles` | bulk-animations/bulk-animations.js:61 | exactly the selected tiles whose frame list is non-empty |
| `Editor.AnimatedTilesCount` | bulk-animations/bulk-animations.js:61 | each animated selected tile occurs in the filtered list as often as it is selected, and no other tile occurs, which fixes the count `beginClearAnimations` reports |
| `Editor.AnimationTable.CreateAnimations` | bulk-animations/bulk-animations.js:27-48 | on success every enumerated tile gets its frame list and every other tile keeps its own; on failure the tiles before the first failing id are updated and no others; never fails for a configuration that fits |
| `Editor.AnimationTable.ClearAnimations` | bulk-animations/bulk-animations.js:76-80 | exactly the given tiles get an empty frame list; every other tile keeps its frames |
| `Editor.AnimationTable.BeginClearAnimations` | bulk-animations/bulk-animations.js:50-74 | nothing changes without a selection, without an animated selected tile, or without confirmation; otherwise it reports the count of animated tiles, and afterwards no selected tile has frames while other tiles are unchanged |

## Left out

- Host calls and dialogs: `registerAction`, `extendMenu`, `tiled.prompt`, `alert` and `confirm`, and `activeAsset` (lines 6-14, 316-322). They are host I/O. The answer to the clear confirmation is a parameter of `BeginClearAnimations`.
- The `while (true)` prompt loops and the sequencing in `promptInputs` (lines 95-142): only the rule applied to one answer is modelled. `checkExistingAnimations` (lines 144-153) is a confirmation dialog over the same filter as `Editor.AnimatedTiles`, so it is not modelled separately.
- Number parsing by `+input`: whitespace reads as 0, and hex and exponent forms are accepted. The rules take the already-parsed value: blank, not a number, or an integer.
- Non-integer frame counts and durations, such as `2.5`, are floating point and are not modelled.
- `toLowerCase` is modelled for ASCII letters only. Only `R`, `r`, `D` and `d` lowercase to a first character of `r` or `d`.
- Floating point: a non-integer `tilesX` or `tilesY` when the image is not a multiple of the tile size is not modelled; the model assumes exact division. The Infinity or NaN that `getMaxFrames` returns for a zero divisor is only `None`. How `promptFrames` treats such a bound is not modelled. When the divisor is zero, `getTileIdsInExtent` yields no id, so `createAnimations` changes nothing. Double rounding in `Math.floor(a / b)` for numbers near 2^53 is not modelled.
- Tile spacing and margin are taken to be zero. They appear only in `formatError`.
- `execute`'s try/catch and `formatError` (lines 82-93, 288-313) are error reporting. A thrown error is returned as a value instead.
- The scan for null tiles in `createAnimations` (lines 34-44) works around the host catalog and is not modelled.
- `createAnimation` (lines 265-267) has an empty body.
- `getTileIdsInExtent` is a lazy generator. The model builds the whole id list before the loop, which is equivalent because the enumeration does not read the frame table.
- `tileset.tile(id)` is modelled as the tile at position `id`, or null past the end of the list.
- The test helper `tests/helpers/tileset-helpers.js` and the test `tests/bulk-animations.spec.js` are not modelled.
- Editor.AnimationTable.CreateAnimations: when a frame runs off the tile list, it states that the error is `NoTileAtIndex` but not which index. `Frames.GetFrames` states which.
