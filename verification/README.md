# L.Grib2tile in Dafny

A model of `L.Grib2tile`, the Leaflet layer that serves a meteorological field
(a GRIB2 element such as temperature, or the wind pair UGRD/VGRD) cut into
tiles of `tnx` x `tny` grid cells over a fixed geographic rectangle. For a map
view the layer:

1. picks a tile zoom (scanning the configured levels from the last listed one
   back, the first whose tile-count estimate u * v is at most 4, or the first
   listed level when none passes) and the clamped range of tiles covering the
   view;
2. walks that range row by row, marking cached tiles current and queueing the
   missing ones; the cache is keyed `element:x:y:z`;
3. loads the queued tiles and, once no cached tile is unloaded, builds the
   field: it clamps the view's north-west and (rolled-over) south-east grid
   points to the grid and copies the rows of every tile between them into one
   flat row-major buffer (`u` and `v` buffers for wind);
4. answers `getValue` / `getVector` (and the cached `getDx` / `getDy` /
   `getValueXY` / `getVectorXY` path) by bilinear interpolation of the four
   grid values around a point.

Modules, one per concern of `leaflet-grib2tile.js`:

- `Grid` (grid.dfy): options, zoom choice, tile range, field points,
  `_checkBounds` on values, field size.
- `Tiles` (tiles.dfy): tile coordinates, the decimal `e:x:y:z` key and the
  tile record.
- `Sampling` (sample.dfy): the field's sampling functions; a read past the
  buffer is `NaN`, as JavaScript's `undefined` makes the blend.
- `Stitch` (stitch.dfy): `_createField`'s copy loops, as a list of row copies
  applied to a zeroed buffer and as the array methods that run the loops.
- `LoadQueue` (queue.dfy): the request walk of `_getField`, `_enqueue`,
  `_getTile`, `_noTilesToLoad` and a tile's delivery, on values.
- `Layer` (layer.dfy): the class `Grib2tile`, whose fields (the cache, the
  queue, the flags, the field geometry and its `array` buffers) the methods
  update in place, proved against the functions of the other modules.

The core's flows are connected end to end:

- `Layer.Grib2tile.GetField` states the cache, queue and flags after a
  request, via `RangeWalked`, which characterises the walk.
- `TileReady` states when the field gets built.
- `CreateField` states that the buffers then hold `Stitch.Stitched`.
- `TwoTilesExact` and `SingleTileWindow` show that, with at most two tiles
  per axis, `Stitched` is the tile mosaic's window between the corners. With
  three or more tiles across it is not: `LastColumnsUnwritten` shows that the
  last columns keep their initial 0.
- `GridPointExact` shows that sampling at a grid point off the last column
  and the last row returns the stored value. `GridPointLastColumn` extends
  this to the last column, except on the last row but one, where the result
  is NaN. `SouthEdgeIsNaN` shows that the last row gives NaN.

## Model

| member | source | states |
|---|---|---|
| Grid.BoundsOf | leaflet-grib2tile.js:225-228 | the bounds spanned by two corners are normalised, contain both corners, and each side is one of the corners' coordinates |
| Grid.DefaultConfig | leaflet-grib2tile.js:13-17 | the shipped default options form a usable grid configuration |
| Grid.StepsAt | leaflet-grib2tile.js:170-174 | tile and cell sizes at a zoom are positive, and a cell is a tile's span divided by the tile's cell count |
| Grid.ZoomIndex | leaflet-grib2tile.js:330-341 | the backwards scan stops at the last level whose tile estimate is at most 4; every later level fails the test; when none passes, the scan falls out at position 0 |
| Grid.TileCount | leaflet-grib2tile.js:333-336 | u * v is the view's area over the area of one tile at the level |
| Grid.TileZoom | leaflet-grib2tile.js:326-342 | the chosen tile zoom is one of the configured levels |
| Grid.GetTileRange | leaflet-grib2tile.js:344-362 | the range lies inside the 2^z x 2^z grid; for a normalised view each side is the floor of the view edge's tile offset, clamped to [0, 2^z - 1] |
| Grid.AxisSplit | leaflet-grib2tile.js:181-190 | on one axis the pixel inside the tile lies in [0, n) and tile * n + pixel is the global cell holding the offset |
| Grid.RawFieldPointSplit | leaflet-grib2tile.js:181-190 | the unstepped field point names the point's tile and a pixel inside it; together they give the global cell column and row holding the point |
| Grid.PlusStep | leaflet-grib2tile.js:192-206 | the far-corner step lands on a pixel in [1, n) and advances the global cell by 1, or by 2 when it rolls over into the next tile |
| Grid.GetFieldPoint | leaflet-grib2tile.js:179-213 | without `plus`: the tile and in-tile pixel of the cell holding the point; with `plus`: a pixel >= 1 one or two global cells past that cell |
| Grid.ClampPoint | leaflet-grib2tile.js:293-315 | each axis on its own: a tile index in the grid is kept with its pixel; below 0 it becomes tile 0 pixel 0; at or past nz it becomes tile nz - 1 and the last pixel |
| Grid.ClampAxisGlobal | leaflet-grib2tile.js:293-315 | clamping one axis clamps its global cell index to [0, nz * n - 1] and keeps the pixel inside the tile |
| Grid.FieldPointToLatLng | leaflet-grib2tile.js:215-220 | a field point maps to the grid origin moved east and south by its global cell column and row times the cell size |
| Grid.FieldPointRoundTrip | leaflet-grib2tile.js:179-220 | fieldPointToLatLng after getFieldPoint returns the cell corner at most one cell north-west of the point |
| Grid.RoundTripLng | leaflet-grib2tile.js:181-218 | the east-west half of the round trip |
| Grid.RoundTripLat | leaflet-grib2tile.js:182-217 | the north-south half of the round trip |
| Grid.FieldWidth | leaflet-grib2tile.js:233 | fnx is the number of global cell columns from the first corner to the second, both included |
| Grid.FieldHeight | leaflet-grib2tile.js:234 | fny is the number of global cell rows from the first corner to the second, both included |
| Grid.CornersOrdered | leaflet-grib2tile.js:222-234 | for a normalised view both clamped corners lie in the grid, with pixels in their tiles, and the south-east one is not before the north-west one on either axis |
| Grid.ColumnsOrdered | leaflet-grib2tile.js:222-233 | the south-east corner's global column is not west of the north-west corner's |
| Grid.RowsOrdered | leaflet-grib2tile.js:222-234 | the south-east corner's global row is not north of the north-west corner's |
| Grid.NorthWestCorner | leaflet-grib2tile.js:222 | the clamped corner has pixels inside its tile, and its global cell is the cell holding the view's north-west corner, clamped to the grid |
| Grid.SouthEastCorner | leaflet-grib2tile.js:223 | the clamped far corner has pixels inside its tile, and its global cell is that of the rolled-over step past the south-east corner's cell, clamped to the grid |
| Grid.NorthWestCornerStartsRange | leaflet-grib2tile.js:222 | the clamped north-west corner sits in the first tile of the requested tile range |
| Grid.SouthEastCornerCanLeaveRange | leaflet-grib2tile.js:223 | with the default options at zoom 1, a view whose east edge falls in tile column 0's last cell has a one-column range, yet its rolled-over far corner lies in tile column 1 |
| Grid.ThreeTilesAtChosenZoom | leaflet-grib2tile.js:326-362 | with the default options, a view of 14.25 degrees by 11.97 degrees passes the u * v <= 4 test at zoom 2 (u * v = 3.61), yet its tile range and its corners span three tile columns |
| Grid.ProbeZoom | leaflet-grib2tile.js:326-342 | the view above passes the u * v <= 4 test at zoom 2, the last listed level, which is therefore chosen |
| Grid.ProbeRange | leaflet-grib2tile.js:344-362 | its tile range at zoom 2 runs from tile 0 to tile 2 on both axes |
| Grid.ProbeCorners | leaflet-grib2tile.js:222-223 | its clamped corners at zoom 2 lie in tile columns 0 and 2 |
| Tiles.NewTile | leaflet-grib2tile.js:428-430 | a tile created for a request carries the request's coordinates and is neither loaded nor current |
| Tiles.Dec | leaflet-grib2tile.js:460 | the decimal form of a number is a non-empty digit string, of two or more digits from 10 on |
| Tiles.DecRoundTrip | leaflet-grib2tile.js:460 | reading the decimal string back gives the number |
| Tiles.DecInjective | leaflet-grib2tile.js:460 | distinct numbers have distinct decimal strings |
| Tiles.LastColonBeforeField | leaflet-grib2tile.js:460 | in a key the last ':' is the one before the final colon-free field |
| Tiles.SplitAtLastColon | leaflet-grib2tile.js:460 | two keys that are equal split into equal parts at their last ':' |
| Tiles.KeyParts | leaflet-grib2tile.js:459-461 | a key starts with the element and ':' and ends with ':' and the zoom's decimal digits |
| Tiles.KeyInjective | leaflet-grib2tile.js:459-461 | distinct tile coordinates get distinct keys, even for an element containing ':' |
| Sampling.Read | leaflet-grib2tile.js:69-72 | x(i, j) is never null, and is a number exactly when fnx * j + i indexes the buffer (NaN otherwise) |
| Sampling.ReadVector | leaflet-grib2tile.js:108-111 | v(i, j) is a pair of non-null values; each is a number exactly when fnx * j + i indexes its buffer |
| Sampling.ReadCell | leaflet-grib2tile.js:69-72 | x(i, j) inside the grid is the buffer value at index fnx * j + i |
| Sampling.NeighboursInside | leaflet-grib2tile.js:62-72 | for a cell not in the last column or row, all four neighbours read are numbers |
| Sampling.WeightsSumToOne | leaflet-grib2tile.js:161-163 | the four bilinear weights sum to 1 |
| Sampling.BlendSample | leaflet-grib2tile.js:160-165 | the blend is a number exactly when all four neighbours are, and is then their bilinear blend; otherwise NaN |
| Sampling.Combine | leaflet-grib2tile.js:160-165 | the arithmetic of the blend is never null, and is a number exactly when all four values are |
| Sampling.BlendVector | leaflet-grib2tile.js:151-157 | the vector blend is the scalar blend of the u values and of the v values |
| Sampling.BlendCorners | leaflet-grib2tile.js:160-165 | at offsets (0,0), (1,0), (0,1), (1,1) the blend returns the corresponding corner value |
| Sampling.LerpBetween | leaflet-grib2tile.js:160-165 | a linear blend with a fraction in [0, 1] lies between its two ends |
| Sampling.BlendIsLerp | leaflet-grib2tile.js:160-165 | the bilinear blend is a linear blend in y of two linear blends in x |
| Sampling.BlendBetween | leaflet-grib2tile.js:160-165 | for offsets in [0, 1] the blend lies between the least and the greatest of the four values |
| Sampling.BlendReproducesBilinear | leaflet-grib2tile.js:160-165 | the blend of the corner values of a bilinear surface is that surface at the offsets |
| Sampling.EastFraction | leaflet-grib2tile.js:57-59 | the fraction lies in [0, 1), and index plus fraction, in cells from p0, locate the longitude exactly |
| Sampling.SouthFraction | leaflet-grib2tile.js:58-60 | the fraction lies in [0, 1), and index plus fraction, in cells south of p0, locate the latitude exactly |
| Sampling.EastOnGrid | leaflet-grib2tile.js:57-59 | at a grid column's longitude the index is that column and the fraction is 0 |
| Sampling.SouthOnGrid | leaflet-grib2tile.js:58-60 | at a grid row's latitude the index is that row and the fraction is 0 |
| Sampling.GetDx | leaflet-grib2tile.js:136-141 | null exactly outside the field's west-east span; otherwise a fraction in [0, 1) that with the index locates the longitude |
| Sampling.GetDy | leaflet-grib2tile.js:143-148 | null exactly outside the field's south-north span; otherwise a fraction in [0, 1) that with the index locates the latitude |
| Sampling.GetValue | leaflet-grib2tile.js:45-67 | null exactly when the point is outside the field's bounds (meaning proved in GridPointExact, SouthEdgeIsNaN, InteriorIsNumber) |
| Sampling.GetVector | leaflet-grib2tile.js:83-106 | both components null exactly when the point is outside the field's bounds (meaning proved in VectorByComponent) |
| Sampling.GetValueXY | leaflet-grib2tile.js:126-134 | null exactly when either offset is null (meaning proved in ValueXYAgrees) |
| Sampling.GetVectorXY | leaflet-grib2tile.js:116-124 | both components null exactly when either offset is null (meaning proved in VectorXYAgrees) |
| Sampling.ValueXYAgrees | leaflet-grib2tile.js:126-134 | getValueXY at getDx(lng), getDy(lat) equals getValue at (lat, lng), null included |
| Sampling.VectorXYAgrees | leaflet-grib2tile.js:116-124 | getVectorXY at getDx(lng), getDy(lat) equals getVector at (lat, lng), null included |
| Sampling.VectorByComponent | leaflet-grib2tile.js:83-111 | getVector is the getValue computation run on the u buffer and on the v buffer |
| Sampling.GridPointInside | leaflet-grib2tile.js:46 | every grid point of a well-shaped field lies inside its bounds |
| Sampling.GridPointBlend | leaflet-grib2tile.js:45-66 | at a grid point the four reads are of that cell and its east, south and south-east neighbours, with offsets 0 |
| Sampling.GridPointExact | leaflet-grib2tile.js:45-72 | at a grid point not in the last column or row, getValue returns the stored value x(i, j) exactly |
| Sampling.GridPointLastColumn | leaflet-grib2tile.js:45-72 | at a grid point of the last column the wrapped east reads carry weight 0, so getValue returns x(i, j); on the last row but one the south-east read falls past the buffer and the result is NaN |
| Sampling.BlendAtCorner | leaflet-grib2tile.js:160-165 | with offsets 0 and four numbers the blend is the north-west value |
| Sampling.LastColumnReads | leaflet-grib2tile.js:69-72 | around a last-column cell the east reads are the first cells of the next two rows; only the south-east one can fall past the buffer, exactly on the last row but one |
| Sampling.SouthEdgeIsNaN | leaflet-grib2tile.js:45-72 | on the field's south edge every getValue reads past the buffer and gives NaN |
| Sampling.InteriorIsNumber | leaflet-grib2tile.js:45-72 | strictly inside the south and east edges getValue returns a number |
| Stitch.TilesOrdered | leaflet-grib2tile.js:233 | global cells in order put the corners' tiles and pixels in order |
| Stitch.AxisFits | leaflet-grib2tile.js:249-254 | each tile between the corners copies a non-empty pixel range inside the tile, landing inside [0, fnx) |
| Stitch.AxisLag | leaflet-grib2tile.js:249-254 | pixel p of tile t lands on the field index of its global cell, shifted west by t - t1 - 1 for every tile after the second |
| Stitch.AxisJoins | leaflet-grib2tile.js:253 | the first two tiles abut; every later pair overlaps by one index; the last tile stops t2 - t1 - 1 short of the field's end |
| Stitch.AxisTwoTilesPartition | leaflet-grib2tile.js:249-254 | with at most two tiles on an axis the copies cover [0, fnx) without gap or overlap |
| Stitch.DestEndMonotone | leaflet-grib2tile.js:249-254 | no tile's copy ends past the last tile's |
| Stitch.SpanPositive | leaflet-grib2tile.js:233-234 | the field size on an axis is the count of global cells between the corners, at least 1 |
| Stitch.FrameOfCorners | leaflet-grib2tile.js:222-234 | corners as the layer computes them make a valid stitching frame of size fnx x fny |
| Stitch.RowPieceCells | leaflet-grib2tile.js:249-268 | the copy of row iy of a tile reads from tile row iy at column ix1 and writes at column ifx of field row ify + iy - iy1 |
| Stitch.PiecesInFrame | leaflet-grib2tile.js:246-286 | every copy the loops make is a row of a tile between the corners |
| Stitch.FrameRowCopied | leaflet-grib2tile.js:246-286 | every copied row of every tile between the corners is among the loops' copies |
| Stitch.PieceColumns | leaflet-grib2tile.js:251-253 | a copy writes a non-empty run of columns inside the field's width, read from inside its tile's width |
| Stitch.PieceRowInField | leaflet-grib2tile.js:249-254 | a copy writes one of the field's rows and reads one of its tile's rows |
| Stitch.PieceSourceIn | leaflet-grib2tile.js:263-264 | the subarray a copy reads lies inside its tile's buffer |
| Stitch.PieceDestIn | leaflet-grib2tile.js:267-268 | the run a copy writes lies inside the field buffer |
| Stitch.Source | leaflet-grib2tile.js:264 | the subarray holds exactly the copy's length of values |
| Stitch.Paste | leaflet-grib2tile.js:268 | `set` replaces exactly the indices at .. at + len - 1 with the source and leaves the rest |
| Stitch.Apply | leaflet-grib2tile.js:246-286 | applying copies keeps the buffer's length |
| Stitch.ApplyUntouched | leaflet-grib2tile.js:268 | an index no copy covers keeps its value |
| Stitch.ApplyAgree | leaflet-grib2tile.js:268 | an index whose covering copies all write v ends with v |
| Stitch.FieldSize | leaflet-grib2tile.js:235 | the buffer length is fnx * fny with both at least 1 |
| Stitch.PieceFits | leaflet-grib2tile.js:264-268 | once every tile is ready, no copy reads past its tile or writes past the field |
| Stitch.PiecesFit | leaflet-grib2tile.js:246-286 | the same for every copy of the loops |
| Stitch.Stitched | leaflet-grib2tile.js:235-286 | the stitched buffer has fnx * fny values |
| Stitch.TwoTilesExact | leaflet-grib2tile.js:246-286 | with at most two tiles per axis, field cell (c, r) holds the mosaic cell c columns east and r rows south of the north-west corner |
| Stitch.LastColumnsUnwritten | leaflet-grib2tile.js:253 | with three or more tiles across, the last t2 - t1 - 1 columns of every row keep the buffer's initial 0 |
| Stitch.SingleTileWindow | leaflet-grib2tile.js:246-286 | a view inside one tile yields that tile's window between the corners' pixels |
| Stitch.FilledApplied | leaflet-grib2tile.js:246-286 | at any point of the loops the buffer is the zeroed buffer with every copy made so far applied in order |
| Stitch.FilledStitched | leaflet-grib2tile.js:246-286 | after the last tile row, the loops' buffer is the stitched field |
| Stitch.RowFits | leaflet-grib2tile.js:262-268 | each row copy the loops reach reads inside its tile and writes inside the field |
| Stitch.FillField | leaflet-grib2tile.js:246-286 | the tile-row loop leaves the stitched field in the zeroed array |
| Stitch.CopyBand | leaflet-grib2tile.js:247-285 | the tile loop of one tile row applies that row's copies in order |
| Stitch.CopyTile | leaflet-grib2tile.js:276-282 | the pixel-row loop of one tile applies that tile's copies in order |
| Stitch.CopyRow | leaflet-grib2tile.js:277-281 | one subarray-and-set applies the next copy |
| Stitch.NewField | leaflet-grib2tile.js:237-286 | a fresh Float32Array of fnx * fny values holding the stitched field |
| Stitch.SetRange | leaflet-grib2tile.js:268 | the array after `set` is Paste of its old contents |
| LoadQueue.Elements | leaflet-grib2tile.js:380-386 | each tile position is requested for at least one element (UGRD then VGRD for wind) |
| LoadQueue.RowMember | leaflet-grib2tile.js:379-387 | the inner loop requests exactly the columns of the row, at the zoom, for each element |
| LoadQueue.RangeMember | leaflet-grib2tile.js:378-388 | the loops up to a row request exactly the range's cells above that row |
| LoadQueue.RequestsMember | leaflet-grib2tile.js:378-388 | the requests are exactly the coordinates inside the range, at the chosen zoom, for each element |
| LoadQueue.RowLength | leaflet-grib2tile.js:379-387 | a row makes columns x elements requests |
| LoadQueue.RowIndex | leaflet-grib2tile.js:379-387 | within a row, column i and element k sit at position (i - i0) * elements + k |
| LoadQueue.RangeLength | leaflet-grib2tile.js:378-388 | the range makes rows x columns x elements requests |
| LoadQueue.RangeIndex | leaflet-grib2tile.js:378-388 | the row-major position of each request among the rows walked so far |
| LoadQueue.RequestsOrder | leaflet-grib2tile.js:378-388 | the walk is row-major: rows in order, columns in order, the elements of one position adjacent |
| LoadQueue.MissingAppend | leaflet-grib2tile.js:403-410 | the missing requests of a concatenation are those of each part, in order |
| LoadQueue.MissingMember | leaflet-grib2tile.js:403-410 | a request is queued exactly when it is requested and its key is not cached |
| LoadQueue.MissingEmpty | leaflet-grib2tile.js:395-400 | the queue is empty exactly when every requested tile is cached |
| LoadQueue.Cleared | leaflet-grib2tile.js:373-375 | clearing keeps every key, coordinates, load flag and data, and leaves no entry current |
| LoadQueue.CurrentIffRequested | leaflet-grib2tile.js:373-375 | after clearing and marking, the cache keeps its entries and their data, and an entry is current exactly when requested |
| LoadQueue.EnqueueStep | leaflet-grib2tile.js:403-410 | a cached request's entry becomes current with the queue unchanged; a missing one is appended with the cache unchanged |
| LoadQueue.WalkAppend | leaflet-grib2tile.js:378-388 | walking a + b is walking a, then b |
| LoadQueue.WalkTwo | leaflet-grib2tile.js:380-386 | the walk of one or two requests is one or two enqueues |
| LoadQueue.WalkRowInOrder | leaflet-grib2tile.js:379-387 | the inner loop walks the row's requests in order |
| LoadQueue.WalkRangeInOrder | leaflet-grib2tile.js:378-388 | the nested loops walk the range's requests in order |
| LoadQueue.WalkRangeStep | leaflet-grib2tile.js:378-388 | one more row walked is one more row of requests |
| LoadQueue.WalkRowAfter | leaflet-grib2tile.js:379-387 | a row walked after some requests is the walk of both lists |
| LoadQueue.EnqueueStepMeaning | leaflet-grib2tile.js:403-410 | one enqueue on a marked cache marks one more key, and queues the request exactly when the cache lacks it |
| LoadQueue.WalkMeaning | leaflet-grib2tile.js:378-410 | a walk keeps the cache's keys, marks the requested cached entries current and queues the missing requests in order |
| LoadQueue.WalkMeaningStep | leaflet-grib2tile.js:403-410 | the induction step of WalkMeaning |
| LoadQueue.RangeWalked | leaflet-grib2tile.js:371-388 | after the loops the cache has its keys, exactly the range's requested keys marked, and the queue holds the missing requests in walk order |
| LoadQueue.Installed | leaflet-grib2tile.js:417-436 | starting the loads adds exactly the queued keys to the cache |
| LoadQueue.InstalledFresh | leaflet-grib2tile.js:424-430 | each queued request is filed under its key as a fresh unloaded record of its coordinates |
| LoadQueue.InstalledOthers | leaflet-grib2tile.js:417-436 | entries the queue does not name are left alone |
| LoadQueue.InstalledUnloaded | leaflet-grib2tile.js:417-436 | after starting the loads the unloaded keys are the old ones plus the queued ones |
| LoadQueue.Delivered | leaflet-grib2tile.js:438-443 | the delivered entry becomes loaded with the delivered data, keeping its coordinates and current flag; every other entry and the key set are unchanged |
| LoadQueue.AllLoadedIffNoneUnloaded | leaflet-grib2tile.js:452-457 | every entry is loaded exactly when no key is unloaded |
| LoadQueue.DeliveryCompletes | leaflet-grib2tile.js:438-449 | a delivery completes the load exactly when its tile was the only unloaded one; a stale unloaded entry keeps the cache incomplete |
| Layer.CornerFrame | leaflet-grib2tile.js:222-234 | the corners _createField takes form a valid frame of size FieldWidth x FieldHeight between NorthWestCorner and SouthEastCorner |
| Layer.StepBack | leaflet-grib2tile.js:217 | for ordered cells the second grid latitude lies n - 1 cells south of the first |
| Layer.StepOn | leaflet-grib2tile.js:218 | for ordered cells the second grid longitude lies n - 1 cells east of the first |
| Layer.CornerLats | leaflet-grib2tile.js:225-234 | the south-east corner's latitude lies fny - 1 cells south of the north-west corner's |
| Layer.CornerLngs | leaflet-grib2tile.js:225-233 | the south-east corner's longitude lies fnx - 1 cells east of the north-west corner's |
| Layer.ShapedBetween | leaflet-grib2tile.js:225-234 | a field from p0 to a point fnx - 1 and fny - 1 steps away is well shaped for sampling |
| Layer.CornerShape | leaflet-grib2tile.js:225-234 | the field between the corners' grid points is well shaped |
| Layer.CornerField | leaflet-grib2tile.js:225-234 | the geometry _createField sets: origin p0 at the first corner's grid point, the zoom's cell size, bounds from p0 to the second corner's grid point, size fnx x fny, well shaped, with the given buffers |
| Layer.WindFieldsAligned | leaflet-grib2tile.js:257-269 | for wind, cell n of the u buffer and of the v buffer are the UGRD and VGRD values of the same grid cell |
| Layer.PointRef.constructor | leaflet-grib2tile.js:208-212 | the point object holds the given tile and pixel |
| Layer.Grib2tile.constructor | leaflet-grib2tile.js:19-35 | the element defaults to "wind"; the cache and queue start empty; nothing is loading and no field is built |
| Layer.Grib2tile.CheckBounds | leaflet-grib2tile.js:293-315 | the point object is updated in place to ClampPoint of its old value |
| Layer.Grib2tile.ClearCurrent | leaflet-grib2tile.js:373-375 | every entry's current flag is cleared; nothing else changes |
| Layer.Grib2tile.Enqueue | leaflet-grib2tile.js:403-410 | the cache and queue become EnqueueStep of the old ones |
| Layer.Grib2tile.EnqueueCell | leaflet-grib2tile.js:380-386 | one tile position is enqueued for each element, in order |
| Layer.Grib2tile.EnqueueRow | leaflet-grib2tile.js:379-387 | the inner loop walks one more row of the range |
| Layer.Grib2tile.BuildQueue | leaflet-grib2tile.js:378-388 | the nested loops leave the walk of the whole range |
| Layer.Grib2tile.GetTile | leaflet-grib2tile.js:424-436 | a fresh unloaded record is filed under the request's key |
| Layer.Grib2tile.GetTiles | leaflet-grib2tile.js:417-422 | loading is under way and every queued request has a fresh record, in queue order |
| Layer.Grib2tile.NoTilesToLoad | leaflet-grib2tile.js:452-457 | true exactly when every entry is loaded |
| Layer.Grib2tile.AbortLoading | leaflet-grib2tile.js:463-469 | the loads cancelled are exactly those of the unloaded entries; the cache is unchanged |
| Layer.Grib2tile.ClampedCorner | leaflet-grib2tile.js:222-223 | a corner is getFieldPoint followed by _checkBounds |
| Layer.Grib2tile.ViewFrame | leaflet-grib2tile.js:222-223 | the corners for the last request's view are those of CornerFrame |
| Layer.Grib2tile.SetGeometry | leaflet-grib2tile.js:225-234 | the field's bounds, origin, cell size and size are CornerField's, and well shaped |
| Layer.Grib2tile.FillBuffers | leaflet-grib2tile.js:235-286 | fresh buffers of fnx * fny values; they hold the stitched field exactly when every tile read is ready |
| Layer.Grib2tile.CreateField | leaflet-grib2tile.js:168-291 | for the last view the geometry is CornerField's; the field is built exactly when its tiles are ready, and then the buffers hold Stitched |
| Layer.Grib2tile.Deliver | leaflet-grib2tile.js:438-443 | the delivered entry is marked loaded with its data |
| Layer.Grib2tile.FinishIfLoaded | leaflet-grib2tile.js:445-449 | with an unloaded entry nothing changes; otherwise loading ends and the field gets CornerField's geometry and is built as CreateField states |
| Layer.Grib2tile.TileReady | leaflet-grib2tile.js:438-450 | an unknown key is ignored; otherwise the tile is delivered, and when no entry remains unloaded the field gets CornerField's geometry and is built exactly when its tiles are ready; the field is untouched otherwise |
| Layer.Grib2tile.RebuildQueue | leaflet-grib2tile.js:371-388 | the queue is emptied, the current flags cleared and the range walked |
| Layer.Grib2tile.SetView | leaflet-grib2tile.js:390-391 | the request's view and tile zoom are recorded |
| Layer.Grib2tile.LoadOrBuild | leaflet-grib2tile.js:390-400 | with a non-empty queue the loads start and the previous field is kept as it was; with an empty queue the field gets CornerField's geometry and is built at once |
| Layer.Grib2tile.RequestView | leaflet-grib2tile.js:369-400 | the view is served: zoom, range, walk of the cleared cache, then loads keeping the previous field, or an immediate build with CornerField's geometry |
| Layer.Grib2tile.GetField | leaflet-grib2tile.js:365-401 | pending loads are cancelled when loading; without a view or with map zoom 0 nothing else changes; otherwise the view is served as RequestView states, keeping the previous field while loads are pending |

## Left out

- Network and decoding: `Grib2tile` (grib2tile.js), the class that fetches a
  tile and decodes its GRIB2 message, is not part of this model. A load
  completes when the caller hands its values to `TileReady`.
- `_getTileUrl` and the `url` option: URL templating has no bearing on the
  layer's state.
- `console.time`, `console.log`, the load timestamp (`loaded = +new Date()` is
  a boolean here) and the user `callback` are not modelled.
- `_pruneTiles` (inherited from L.GridLayer) and the `setTimeout` that
  schedules it are outside the layer's own code.
- Float32 storage and floating point: values and coordinates are exact reals,
  and `Math.floor` is `Floor`.
- `_abortLoading` also requires a pending `_req` object, which lives in
  grib2tile.js; `AbortLoading` returns the keys whose loads it would cancel.
- `abort()` tests `this._loadingTile`, a property nothing sets, so it never
  does anything; it is not modelled separately.
- `getWindField` is `getField` under another name.
- A build that reads a tile missing from the cache throws in the source
  (`this._tiles[key]` is undefined at leaflet-grib2tile.js:264-265 and 278),
  after partly filling the buffers. The model builds nothing then:
  `CreateField` reports failure, and the partly filled buffers are not
  modelled. The same is modelled for a cached tile that is not yet loaded.
  What its `data` holds before the load completes is set in grib2tile.js,
  which is not part of this model.
- `TilesReady` (and so a successful build) requires every tile read to hold
  at least `tnx * tny` values; values past that are never read, as in the
  source. A tile delivered with fewer values makes the source's `subarray`
  (leaflet-grib2tile.js:264-265, 278) return a shorter run and `set` write fewer
  values without throwing, so the source builds a partly filled field. The
  model reports failure for such a build instead.
- The wind branch interleaves the `u` and `v` copies in one loop. The model
  fills `u`, then `v`, with the same copies. Both tile maps are read-only and
  the buffers are distinct, so the result is the same.
- `getValue` (and `getValueXY`) in wind mode reads `_field`, which is never
  created for wind; in the source `this._field[n]` then throws a TypeError
  (leaflet-grib2tile.js:69-72). The model reads the scalar buffer left from
  construction (empty), so the result is NaN instead of an exception.
- `getVector` and `getVectorXY` on a scalar layer read `_ufield` and
  `_vfield`, which are never created there; the source throws a TypeError
  (leaflet-grib2tile.js:108-111). The model reads the empty buffers left
  from construction and returns NaN components instead.
- A tile size of 1 on either axis: `Config.Valid` requires `tnx, tny >= 2`,
  while the source accepts any `tileSize` (leaflet-grib2tile.js:31-32). With
  one cell per tile the far-corner roll-over in getFieldPoint sets the pixel
  to 1, outside the tile, so PlusStep's contract would not hold.
- `_getField`'s `mapZoom` is used only for its early return when it is 0.
- `_doneLoadingTiles` is a direct call of `CreateField`.
- Stitch.Apply: skips a copy that does not fit its buffer. PiecesFit and
  RowFits show that no copy of `_createField` is such a copy.
- With three or more tiles across, copies after the second tile land one
  column per tile west of their cells' place. This is the source's
  behaviour; it is proved as LastColumnsUnwritten rather than corrected.
  The rows use the same offset formula (leaflet-grib2tile.js:254), so with
  three or more tiles down, copies after the second tile row land one row per
  tile north of their place; only the column case is proved. The u * v <= 4
  test of `_getTileZoom` bounds the view's area in tiles, not the number of
  tiles its range spans: ThreeTilesAtChosenZoom exhibits a view that passes
  the test with three tile columns. TwoTilesExact states exactness only for
  two tiles or fewer per axis.
