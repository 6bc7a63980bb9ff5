/** The layer object: its tile cache and load queue, the request / load /
    complete cycle that fills them, and the field it stitches from the loaded
    tiles once every pending tile has arrived. Tile loads are explicit
    `TileReady` events delivered by the caller, one at a time. */
module Layer {
  import opened Grid
  import opened Tiles
  import opened Sampling
  import opened Stitch
  import opened LoadQueue

  datatype Option<T> = None | Some(value: T)

  /** The frame _createField stitches for a view at tile zoom z: between the
      clamped north-west corner and the clamped, rolled-over south-east
      corner. */
  function CornerFrame(cfg: Config, z: nat, view: LatLngBounds): (f: Frame)
    requires cfg.Valid() && view.Normalized()
    ensures f.Ok() && f.z == z && f.tnx == cfg.tnx && f.tny == cfg.tny
    ensures f.p1 == NorthWestCorner(cfg, z, view) && f.p2 == SouthEastCorner(cfg, z, view)
    ensures CornersOk(f.p1, f.p2, cfg.tnx, cfg.tny, Pow2(z))
    ensures f.Width() == FieldWidth(f.p1, f.p2, cfg.tnx) && f.Height() == FieldHeight(f.p1, f.p2, cfg.tny)
  {
    CornersOrdered(cfg, z, view);
    var p1 := NorthWestCorner(cfg, z, view);
    var p2 := SouthEastCorner(cfg, z, view);
    FrameOfCorners(p1, p2, cfg.tnx, cfg.tny, Pow2(z), z);
    Frame(p1, p2, cfg.tnx, cfg.tny, z)
  }

  /** The tiles a field needs are in the cache with a full buffer: both wind
      components for "wind", the element itself otherwise. */
  predicate FieldReady(f: Frame, tiles: map<string, Tile>, element: string)
  {
    if element == "wind" then TilesReady(f, tiles, "UGRD") && TilesReady(f, tiles, "VGRD")
    else TilesReady(f, tiles, element)
  }

  /** Grid points a1 and a2 of cells g1 <= g2, counted from an origin o in
      steps of d > 0 in the decreasing direction: a2 lies n - 1 steps past
      a1, n being the number of cells from g1 to g2. */
  lemma StepBack(o: real, d: real, g1: int, g2: int, a1: real, a2: real, n: int)
    requires d > 0.0 && g1 <= g2 && n == g2 - g1 + 1
    requires a1 == o - d * g1 as real && a2 == o - d * g2 as real
    ensures a2 <= a1 && a2 == a1 - d * (n - 1) as real
  {
    assert d * g2 as real - d * g1 as real == d * (g2 - g1) as real;
  }

  /** The same in the increasing direction. */
  lemma StepOn(o: real, d: real, g1: int, g2: int, a1: real, a2: real, n: int)
    requires d > 0.0 && g1 <= g2 && n == g2 - g1 + 1
    requires a1 == o + d * g1 as real && a2 == o + d * g2 as real
    ensures a1 <= a2 && a2 == a1 + d * (n - 1) as real
  {
    assert d * g2 as real - d * g1 as real == d * (g2 - g1) as real;
  }

  /** The grid points of two ordered corners: the second lies fny - 1 cells
      south of the first. */
  lemma CornerLats(cfg: Config, z: nat, p1: FieldPoint, p2: FieldPoint)
    requires cfg.Valid() && GlobalY(p1, cfg.tny) <= GlobalY(p2, cfg.tny)
    ensures var a1 := FieldPointToLatLng(cfg, z, p1).lat;
      var a2 := FieldPointToLatLng(cfg, z, p2).lat;
      a2 <= a1 && a2 == a1 - StepsAt(cfg, z).dlat * (FieldHeight(p1, p2, cfg.tny) - 1) as real
  {
    StepBack(cfg.Origin().lat, StepsAt(cfg, z).dlat, GlobalY(p1, cfg.tny), GlobalY(p2, cfg.tny),
             FieldPointToLatLng(cfg, z, p1).lat, FieldPointToLatLng(cfg, z, p2).lat,
             FieldHeight(p1, p2, cfg.tny));
  }

  /** ... and fnx - 1 cells east of it. */
  lemma CornerLngs(cfg: Config, z: nat, p1: FieldPoint, p2: FieldPoint)
    requires cfg.Valid() && GlobalX(p1, cfg.tnx) <= GlobalX(p2, cfg.tnx)
    ensures var a1 := FieldPointToLatLng(cfg, z, p1).lng;
      var a2 := FieldPointToLatLng(cfg, z, p2).lng;
      a1 <= a2 && a2 == a1 + StepsAt(cfg, z).dlon * (FieldWidth(p1, p2, cfg.tnx) - 1) as real
  {
    StepOn(cfg.Origin().lng, StepsAt(cfg, z).dlon, GlobalX(p1, cfg.tnx), GlobalX(p2, cfg.tnx),
           FieldPointToLatLng(cfg, z, p1).lng, FieldPointToLatLng(cfg, z, p2).lng,
           FieldWidth(p1, p2, cfg.tnx));
  }

  /** The field between the corners' grid points is well shaped. */
  lemma CornerShape(cfg: Config, z: nat, p1: FieldPoint, p2: FieldPoint,
                    data: seq<real>, u: seq<real>, v: seq<real>)
    requires cfg.Valid()
    requires GlobalX(p1, cfg.tnx) <= GlobalX(p2, cfg.tnx) && GlobalY(p1, cfg.tny) <= GlobalY(p2, cfg.tny)
    ensures var s := StepsAt(cfg, z);
      var ll1 := FieldPointToLatLng(cfg, z, p1);
      var ll2 := FieldPointToLatLng(cfg, z, p2);
      Field(ll1, s.dlat, s.dlon, FieldWidth(p1, p2, cfg.tnx), FieldHeight(p1, p2, cfg.tny),
            BoundsOf(ll1, ll2), data, u, v).Shaped()
  {
    var s := StepsAt(cfg, z);
    CornerLats(cfg, z, p1, p2);
    CornerLngs(cfg, z, p1, p2);
    ShapedBetween(FieldPointToLatLng(cfg, z, p1), FieldPointToLatLng(cfg, z, p2), s.dlat, s.dlon,
                  FieldWidth(p1, p2, cfg.tnx), FieldHeight(p1, p2, cfg.tny), data, u, v);
  }

  /** A field from a north-west point to a south-east one fnx - 1 and fny - 1
      positive steps away is well shaped. */
  lemma ShapedBetween(ll1: LatLng, ll2: LatLng, dlat: real, dlng: real, fnx: int, fny: int,
                      data: seq<real>, u: seq<real>, v: seq<real>)
    requires dlat > 0.0 && dlng > 0.0 && fnx >= 1 && fny >= 1
    requires ll2.lat <= ll1.lat && ll2.lat == ll1.lat - dlat * (fny - 1) as real
    requires ll1.lng <= ll2.lng && ll2.lng == ll1.lng + dlng * (fnx - 1) as real
    ensures Field(ll1, dlat, dlng, fnx, fny, BoundsOf(ll1, ll2), data, u, v).Shaped()
  {
  }

  /** The geometry _createField gives the field between corners p1 and p2:
      p0 is the grid point of p1, the bounds run from it to the grid point of
      p2, and the field is fnx by fny cells of the zoom's cell size; such a
      field is well shaped for sampling. */
  function CornerField(cfg: Config, z: nat, p1: FieldPoint, p2: FieldPoint,
                       data: seq<real>, u: seq<real>, v: seq<real>): (fld: Field)
    requires cfg.Valid()
    requires GlobalX(p1, cfg.tnx) <= GlobalX(p2, cfg.tnx) && GlobalY(p1, cfg.tny) <= GlobalY(p2, cfg.tny)
    ensures fld.Shaped()
    ensures fld.fnx == FieldWidth(p1, p2, cfg.tnx) && fld.fny == FieldHeight(p1, p2, cfg.tny)
    ensures fld.data == data && fld.u == u && fld.v == v
    ensures fld.p0 == FieldPointToLatLng(cfg, z, p1)
    ensures fld.dlat == StepsAt(cfg, z).dlat && fld.dlng == StepsAt(cfg, z).dlon
    ensures fld.bounds == BoundsOf(fld.p0, FieldPointToLatLng(cfg, z, p2))
  {
    CornerShape(cfg, z, p1, p2, data, u, v);
    var s := StepsAt(cfg, z);
    var ll1 := FieldPointToLatLng(cfg, z, p1);
    var ll2 := FieldPointToLatLng(cfg, z, p2);
    Field(ll1, s.dlat, s.dlon, FieldWidth(p1, p2, cfg.tnx), FieldHeight(p1, p2, cfg.tny),
          BoundsOf(ll1, ll2), data, u, v)
  }

  /** In wind mode the two buffers line up: for at most two tiles per axis,
      cell n of the u field and cell n of the v field are the UGRD and the
      VGRD value of the same grid cell. */
  lemma WindFieldsAligned(f: Frame, tiles: map<string, Tile>, c: int, r: int)
    requires f.Ok() && FieldReady(f, tiles, "wind")
    requires f.p2.tx <= f.p1.tx + 1 && f.p2.ty <= f.p1.ty + 1
    requires 0 <= c < f.Width() && 0 <= r < f.Height()
    ensures var gx := GlobalX(f.p1, f.tnx) + c;
      var gy := GlobalY(f.p1, f.tny) + r;
      var n := f.Width() * r + c;
      MosaicHas(tiles, f.tnx, f.tny, f.z, "UGRD", gx, gy) &&
      MosaicHas(tiles, f.tnx, f.tny, f.z, "VGRD", gx, gy) &&
      0 <= n < |Stitched(f, tiles, "UGRD")| && 0 <= n < |Stitched(f, tiles, "VGRD")| &&
      Stitched(f, tiles, "UGRD")[n] == MosaicCell(tiles, f.tnx, f.tny, f.z, "UGRD", gx, gy) &&
      Stitched(f, tiles, "VGRD")[n] == MosaicCell(tiles, f.tnx, f.tny, f.z, "VGRD", gx, gy)
  {
    TwoTilesExact(f, tiles, "UGRD", c, r);
    TwoTilesExact(f, tiles, "VGRD", c, r);
  }

  /** Every entry of the cache is filed under its own coordinates' key. */
  predicate Keyed(tiles: map<string, Tile>)
  {
    forall k :: k in tiles ==> Key(tiles[k].coords) == k
  }

  /** A field point held in an object, as getFieldPoint returns it and
      _checkBounds updates it in place. */
  class PointRef {
    var tx: int
    var ty: int
    var x: int
    var y: int

    function Value(): FieldPoint
      reads this
    {
      FieldPoint(tx, ty, x, y)
    }

    constructor(p: FieldPoint)
      ensures Value() == p
    {
      tx, ty, x, y := p.tx, p.ty, p.x, p.y;
    }
  }

  /** L.Grib2tile. */
  class Grib2tile {
    const cfg: Config
    /** The GRIB element shown; "wind" stands for the UGRD/VGRD pair. */
    const element: string

    var tiles: map<string, Tile>
    var queue: seq<Coords>
    var loadingTiles: bool
    /** The view of the last accepted request and the tile zoom chosen for it. */
    var bounds: Option<LatLngBounds>
    var tileZoom: nat

    /** Whether a field has been built; then its geometry and buffers. */
    var hasField: bool
    var p0: LatLng
    var dlat: real
    var dlng: real
    var fnx: int
    var fny: int
    var fieldBounds: LatLngBounds
    var field: array<real>
    var ufield: array<real>
    var vfield: array<real>

    /** The built field as the sampling functions read it. */
    function Snapshot(): Field
      reads this`p0, this`dlat, this`dlng, this`fnx, this`fny, this`fieldBounds
      reads this`field, this`ufield, this`vfield, field, ufield, vfield
    {
      Field(p0, dlat, dlng, fnx, fny, fieldBounds, field[..], ufield[..], vfield[..])
    }

    /** The cache and the queue. */
    function Load(): LoadState
      reads this`tiles, this`queue
    {
      LoadState(tiles, queue)
    }

    /** The built field's geometry, without its buffers. */
    function Geometry(): Field
      reads this`p0, this`dlat, this`dlng, this`fnx, this`fny, this`fieldBounds
    {
      Field(p0, dlat, dlng, fnx, fny, fieldBounds, [], [], [])
    }

    /** A built field is well shaped and its buffers hold fnx * fny cells. */
    predicate FieldValid()
      reads this`hasField, this`p0, this`dlat, this`dlng, this`fnx, this`fny, this`fieldBounds
      reads this`field, this`ufield, this`vfield
    {
      hasField ==>
        Geometry().Shaped() &&
        (element == "wind" ==> ufield.Length == fnx * fny && vfield.Length == fnx * fny) &&
        (element != "wind" ==> field.Length == fnx * fny)
    }

    /** Every entry is filed under its own coordinates' key, and there are
        entries only once a view has been requested. */
    predicate CacheValid()
      reads this`tiles, this`bounds
    {
      Keyed(tiles) &&
      (bounds.Some? ==> bounds.value.Normalized()) &&
      (tiles.Keys != {} ==> bounds.Some?)
    }

    /** The layer's invariant: valid options, a non-empty element, a valid
        cache and a valid field. */
    predicate Valid()
      reads this`tiles, this`bounds
      reads this`hasField, this`p0, this`dlat, this`dlng, this`fnx, this`fny, this`fieldBounds
      reads this`field, this`ufield, this`vfield
    {
      cfg.Valid() && element != "" && CacheValid() && FieldValid()
    }

    /** The buffers hold the stitched field of frame f: the u and v fields
        for wind, the element's field otherwise. */
    predicate HoldsField(f: Frame)
      requires f.Ok()
      reads this`tiles, this`fnx, this`fny, this`field, this`ufield, this`vfield, field, ufield, vfield
    {
      FieldReady(f, tiles, element) &&
      fnx == f.Width() && fny == f.Height() &&
      (element == "wind" ==>
        ufield[..] == Stitched(f, tiles, "UGRD") && vfield[..] == Stitched(f, tiles, "VGRD")) &&
      (element != "wind" ==> field[..] == Stitched(f, tiles, element))
    }

    /** The outcome of _createField for the last request's view: the field
        lies between the view's clamped corners (origin, cell size, size and
        bounds of CornerField); built is whether every tile it reads was
        cached with a full buffer, and then the buffers hold the stitched
        field. */
    predicate BuiltField(built: bool)
      requires cfg.Valid() && bounds.Some? && bounds.value.Normalized()
      reads this`tiles, this`bounds, this`tileZoom, this`hasField
      reads this`p0, this`dlat, this`dlng, this`fieldBounds
      reads this`fnx, this`fny, this`field, this`ufield, this`vfield, field, ufield, vfield
    {
      var f := CornerFrame(cfg, tileZoom, bounds.value);
      Geometry() == CornerField(cfg, tileZoom, f.p1, f.p2, [], [], []) &&
      built == FieldReady(f, tiles, element) && hasField == built && (built ==> HoldsField(f))
    }

    /** The state after _getField served view, from a cache t0 and the flags
        loading0 and hasField0 it found: the view and its tile zoom are
        recorded, and the queue is that of the walk of the view's tile range
        from t0 with every `current` flag cleared and an empty queue (lemma
        RangeWalked: the cache keeps its entries and an entry is current
        exactly when the range requests it; the queue holds the requests the
        cache misses, in walk order). */
    predicate Serves(view: LatLngBounds, t0: map<string, Tile>, loading0: bool, hasField0: bool, s0: Field,
                     built: bool)
      requires cfg.Valid() && view.Normalized()
      reads this`tiles, this`queue, this`loadingTiles, this`bounds, this`tileZoom, this`hasField
      reads this`p0, this`dlat, this`dlng, this`fieldBounds
      reads this`fnx, this`fny, this`field, this`ufield, this`vfield, field, ufield, vfield
    {
      var z := TileZoom(cfg, view);
      var r := GetTileRange(cfg, view, z);
      var w := WalkRange(LoadState(Cleared(t0), []), r, r.maxY + 1, z, Elements(element));
      bounds == Some(view) && tileZoom == z && queue == w.queue &&
      Outcome(w.tiles, loading0, hasField0, s0, built)
    }

    /** The end of _getField from a walked cache w: with a non-empty queue
        every queued request gets a fresh, unloaded entry, loading is under
        way and the previous field s0 is kept as it was; otherwise the field
        is built from the cache. */
    predicate Outcome(w: map<string, Tile>, loading0: bool, hasField0: bool, s0: Field, built: bool)
      reads this`tiles, this`queue, this`loadingTiles, this`bounds, this`tileZoom, this`hasField
      reads this`p0, this`dlat, this`dlng, this`fieldBounds
      reads this`fnx, this`fny, this`field, this`ufield, this`vfield, field, ufield, vfield
    {
      (queue != [] ==>
        !built && loadingTiles && hasField == hasField0 && Snapshot() == s0 && tiles == Installed(w, queue)) &&
      (queue == [] ==>
        tiles == w && loadingTiles == loading0 &&
        cfg.Valid() && bounds.Some? && bounds.value.Normalized() && BuiltField(built))
    }

    /** initialize: the element defaults to "wind"; the cache starts empty. */
    constructor(element: string, cfg: Config)
      requires cfg.Valid()
      ensures this.cfg == cfg && this.element == (if element == "" then "wind" else element)
      ensures tiles == map[] && queue == [] && !loadingTiles && bounds == None && !hasField
      ensures Valid()
    {
      this.cfg := cfg;
      this.element := if element == "" then "wind" else element;
      tiles := map[];
      queue := [];
      loadingTiles := false;
      bounds := None;
      tileZoom := 0;
      hasField := false;
      p0 := LatLng(0.0, 0.0);
      dlat := 0.0;
      dlng := 0.0;
      fnx := 0;
      fny := 0;
      fieldBounds := LatLngBounds(0.0, 0.0, 0.0, 0.0);
      field := new real[0];
      ufield := new real[0];
      vfield := new real[0];
    }

    /** _checkBounds: clamps the point, in place, to the grid at the current
        tile zoom. */
    method CheckBounds(p: PointRef)
      requires cfg.Valid()
      modifies p
      ensures p.Value() == ClampPoint(old(p.Value()), Pow2(tileZoom), cfg.tnx, cfg.tny)
    {
      var nz := Pow2(tileZoom);
      if p.tx < 0 {
        p.tx := 0;
        p.x := 0;
      } else if p.tx >= nz {
        p.tx := nz - 1;
        p.x := cfg.tnx - 1;
      }
      if p.ty < 0 {
        p.ty := 0;
        p.y := 0;
      } else if p.ty >= nz {
        p.ty := nz - 1;
        p.y := cfg.tny - 1;
      }
    }

    /** The loop of _getField that clears every entry's `current` flag. */
    method ClearCurrent()
      requires Keyed(tiles)
      modifies this`tiles
      ensures Keyed(tiles)
      ensures tiles == Cleared(old(tiles)) && tiles.Keys == old(tiles).Keys
    {
      var rest := tiles.Keys;
      while rest != {}
        invariant tiles.Keys == old(tiles).Keys && rest <= tiles.Keys
        invariant forall k :: k in tiles ==>
          tiles[k] == if k in rest then old(tiles)[k] else old(tiles)[k].(current := false)
        decreases rest
      {
        var k :| k in rest;
        tiles := tiles[k := tiles[k].(current := false)];
        rest := rest - {k};
      }
    }

    /** _enqueue: a cached tile is marked current, a missing one is queued. */
    method Enqueue(c: Coords)
      requires Keyed(tiles)
      modifies this`tiles, this`queue
      ensures Keyed(tiles) && tiles.Keys == old(tiles).Keys
      ensures Load() == EnqueueStep(old(Load()), c)
    {
      var key := Key(c);
      if key in tiles {
        tiles := tiles[key := tiles[key].(current := true)];
      } else {
        queue := queue + [c];
      }
    }

    /** One tile position of the request loop: UGRD then VGRD for wind, the
        element otherwise. */
    method EnqueueCell(i: nat, j: nat, z: nat)
      requires Keyed(tiles)
      modifies this`tiles, this`queue
      ensures Keyed(tiles) && tiles.Keys == old(tiles).Keys
      ensures Load() == Walk(old(Load()), CellRequests(i, j, z, Elements(element)))
    {
      if element == "wind" {
        var cu := Coords(i, j, z, "UGRD");
        var cv := Coords(i, j, z, "VGRD");
        Enqueue(cu);
        Enqueue(cv);
        assert CellRequests(i, j, z, Elements(element)) == [cu, cv];
        WalkTwo(old(Load()), cu, cv);
      } else {
        var c := Coords(i, j, z, element);
        Enqueue(c);
        assert CellRequests(i, j, z, Elements(element)) == [c];
        WalkTwo(old(Load()), c, c);
      }
    }

    /** The inner loop of _getField: columns r.minX .. r.maxX of row j. */
    method EnqueueRow(r: TileRange, j: nat, z: nat, ghost s0: LoadState)
      requires Keyed(tiles) && Proper(r) && r.minY <= j
      requires Load() == WalkRange(s0, r, j, z, Elements(element))
      modifies this`tiles, this`queue
      ensures Keyed(tiles) && tiles.Keys == old(tiles).Keys
      ensures Load() == WalkRange(s0, r, j + 1, z, Elements(element))
    {
      var i: nat := r.minX;
      while i <= r.maxX
        invariant r.minX <= i <= r.maxX + 1
        invariant Keyed(tiles) && tiles.Keys == old(tiles).Keys
        invariant Load() == WalkRow(old(Load()), r.minX, i, j, z, Elements(element))
      {
        EnqueueCell(i, j, z);
        i := i + 1;
      }
    }

    /** The outer loop of _getField: rows r.minY .. r.maxY, each walked in
        column order. The cache keeps its entries and marks the requested
        cached ones current; the queue gains the requested missing ones in
        walk order. */
    method BuildQueue(r: TileRange, z: nat)
      requires Keyed(tiles) && Proper(r)
      modifies this`tiles, this`queue
      ensures Keyed(tiles) && tiles.Keys == old(tiles).Keys
      ensures Load() == WalkRange(old(Load()), r, r.maxY + 1, z, Elements(element))
    {
      var j: nat := r.minY;
      while j <= r.maxY
        invariant r.minY <= j <= r.maxY + 1
        invariant Keyed(tiles) && tiles.Keys == old(tiles).Keys
        invariant Load() == WalkRange(old(Load()), r, j, z, Elements(element))
      {
        EnqueueRow(r, j, z, old(Load()));
        j := j + 1;
      }
    }

    /** _getTile: files a fresh, unloaded record under the request's key. */
    method GetTile(c: Coords)
      requires Valid() && bounds.Some?
      modifies this`tiles
      ensures Valid()
      ensures tiles == old(tiles)[Key(c) := NewTile(c)]
    {
      tiles := tiles[Key(c) := NewTile(c)];
    }

    /** _getTiles: marks loading under way and starts a load per queued
        request. */
    method GetTiles()
      requires Valid() && bounds.Some?
      modifies this`tiles, this`loadingTiles
      ensures Valid()
      ensures loadingTiles && tiles == Installed(old(tiles), queue)
    {
      loadingTiles := true;
      var i := 0;
      while i < |queue|
        invariant 0 <= i <= |queue|
        invariant Valid() && loadingTiles
        invariant tiles == Installed(old(tiles), queue[..i])
      {
        GetTile(queue[i]);
        assert queue[..i + 1][..i] == queue[..i];
        i := i + 1;
      }
      assert queue[..|queue|] == queue;
    }

    /** _noTilesToLoad. */
    method NoTilesToLoad() returns (b: bool)
      ensures b <==> AllLoaded(tiles)
    {
      var rest := tiles.Keys;
      while rest != {}
        invariant rest <= tiles.Keys
        invariant forall k :: k in tiles && k !in rest ==> tiles[k].loaded
        decreases rest
      {
        var k :| k in rest;
        if !tiles[k].loaded {
          return false;
        }
        rest := rest - {k};
      }
      return true;
    }

    /** _abortLoading: the keys whose pending loads it cancels, those of the
        entries not yet loaded; no entry of the cache changes. */
    method AbortLoading() returns (aborted: set<string>)
      ensures aborted == Unloaded(tiles)
    {
      aborted := {};
      var rest := tiles.Keys;
      while rest != {}
        invariant rest <= tiles.Keys
        invariant aborted == set k | k in tiles && k !in rest && !tiles[k].loaded
        decreases rest
      {
        var k :| k in rest;
        if !tiles[k].loaded {
          aborted := aborted + {k};
        }
        rest := rest - {k};
      }
    }

    /** getFieldPoint, then _checkBounds on the point it returns. */
    method ClampedCorner(ll: LatLng, plus: bool) returns (p: FieldPoint)
      requires cfg.Valid()
      ensures p == ClampPoint(GetFieldPoint(cfg, tileZoom, ll, plus), Pow2(tileZoom), cfg.tnx, cfg.tny)
    {
      var q := new PointRef(GetFieldPoint(cfg, tileZoom, ll, plus));
      CheckBounds(q);
      p := q.Value();
    }

    /** The corners of _createField: the clamped grid points of the view's
        north-west and south-east corners. */
    method ViewFrame() returns (f: Frame)
      requires Valid() && bounds.Some?
      ensures f == CornerFrame(cfg, tileZoom, bounds.value)
    {
      var view := bounds.value;
      var p1 := ClampedCorner(view.NorthWest(), false);
      var p2 := ClampedCorner(view.SouthEast(), true);
      f := Frame(p1, p2, cfg.tnx, cfg.tny, tileZoom);
    }

    /** The geometry half of _createField: bounds, origin, cell size and
        size of the field between corners p1 and p2. */
    method SetGeometry(p1: FieldPoint, p2: FieldPoint)
      requires cfg.Valid()
      requires GlobalX(p1, cfg.tnx) <= GlobalX(p2, cfg.tnx) && GlobalY(p1, cfg.tny) <= GlobalY(p2, cfg.tny)
      modifies this`p0, this`dlat, this`dlng, this`fnx, this`fny, this`fieldBounds
      ensures Geometry() == CornerField(cfg, tileZoom, p1, p2, [], [], [])
      ensures Geometry().Shaped() && fnx == FieldWidth(p1, p2, cfg.tnx) && fny == FieldHeight(p1, p2, cfg.tny)
    {
      var s := StepsAt(cfg, tileZoom);
      var ll1 := FieldPointToLatLng(cfg, tileZoom, p1);
      var ll2 := FieldPointToLatLng(cfg, tileZoom, p2);
      fieldBounds := BoundsOf(ll1, ll2);
      p0 := ll1;
      dlat := s.dlat;
      dlng := s.dlon;
      fnx := FieldWidth(p1, p2, cfg.tnx);
      fny := FieldHeight(p1, p2, cfg.tny);
    }

    /** The buffer half of _createField: zeroed buffers of fnx * fny cells,
        filled from the tiles when every tile they read is there. */
    method FillBuffers(f: Frame) returns (ok: bool)
      requires f.Ok() && fnx == f.Width() && fny == f.Height()
      modifies this`field, this`ufield, this`vfield, this`hasField
      ensures ok == FieldReady(f, tiles, element) && hasField == ok && (ok ==> HoldsField(f))
      ensures element == "wind" ==>
        fresh(ufield) && fresh(vfield) && field == old(field) &&
        ufield.Length == fnx * fny && vfield.Length == fnx * fny
      ensures element != "wind" ==>
        fresh(field) && ufield == old(ufield) && vfield == old(vfield) && field.Length == fnx * fny
    {
      if element == "wind" {
        if TilesReady(f, tiles, "UGRD") && TilesReady(f, tiles, "VGRD") {
          ufield := NewField(f, tiles, "UGRD");
          vfield := NewField(f, tiles, "VGRD");
          ok := true;
        } else {
          ufield := new real[FieldSize(f)](_ => 0.0);
          vfield := new real[FieldSize(f)](_ => 0.0);
          ok := false;
        }
      } else {
        if TilesReady(f, tiles, element) {
          field := NewField(f, tiles, element);
          ok := true;
        } else {
          field := new real[FieldSize(f)](_ => 0.0);
          ok := false;
        }
      }
      hasField := ok;
    }

    /** _createField: sets the geometry of the field for the last request's
        view, allocates its buffers and stitches them from the cached tiles.
        It fails (the source throws) when a tile it reads is missing or has
        no full buffer. */
    method CreateField() returns (ok: bool)
      requires Valid() && bounds.Some?
      modifies this`p0, this`dlat, this`dlng, this`fnx, this`fny, this`fieldBounds
      modifies this`field, this`ufield, this`vfield, this`hasField
      ensures Valid()
      ensures BuiltField(ok)
      ensures var f := CornerFrame(cfg, tileZoom, bounds.value);
        Geometry() == CornerField(cfg, tileZoom, f.p1, f.p2, [], [], [])
      ensures element == "wind" ==> fresh(ufield) && fresh(vfield) && field == old(field)
      ensures element != "wind" ==> fresh(field) && ufield == old(ufield) && vfield == old(vfield)
    {
      var f := ViewFrame();
      SetGeometry(f.p1, f.p2);
      ghost var g := Geometry();
      ok := FillBuffers(f);
      assert Geometry() == g;
      assert CacheValid();
    }

    /** The entry of a delivered load: marked loaded, with its buffer. */
    method Deliver(c: Coords, data: seq<real>)
      requires Valid() && Key(c) in tiles
      modifies this`tiles
      ensures Valid() && bounds.Some?
      ensures tiles == Delivered(old(tiles), c, data)
    {
      var key := Key(c);
      tiles := tiles[key := tiles[key].(loaded := true, data := data)];
    }

    /** The end of _tileReady: when no entry is left unloaded, loading ends
        and the field is built; otherwise nothing changes. */
    method FinishIfLoaded() returns (built: bool)
      requires Valid() && bounds.Some?
      modifies this`loadingTiles
      modifies this`p0, this`dlat, this`dlng, this`fnx, this`fny, this`fieldBounds
      modifies this`field, this`ufield, this`vfield, this`hasField
      ensures Valid()
      ensures !AllLoaded(tiles) ==> !built && unchanged(this)
      ensures AllLoaded(tiles) ==> !loadingTiles && BuiltField(built)
    {
      built := false;
      var done := NoTilesToLoad();
      if done {
        loadingTiles := false;
        built := CreateField();
      }
    }

    /** _tileReady: the load of c delivers its buffer. An unknown key is
        ignored; otherwise the entry is marked loaded, and when no entry is
        left unloaded, loading ends and the field is built. */
    method TileReady(c: Coords, data: seq<real>) returns (built: bool)
      requires Valid()
      modifies this`tiles, this`loadingTiles
      modifies this`p0, this`dlat, this`dlng, this`fnx, this`fny, this`fieldBounds
      modifies this`field, this`ufield, this`vfield, this`hasField
      ensures Valid()
      ensures Key(c) !in old(tiles) ==> !built && unchanged(this)
      ensures Key(c) in old(tiles) ==> tiles == Delivered(old(tiles), c, data) && bounds.Some?
      ensures Key(c) in old(tiles) && !AllLoaded(tiles) ==>
        !built && loadingTiles == old(loadingTiles) &&
        hasField == old(hasField) && Snapshot() == old(Snapshot())
      ensures Key(c) in old(tiles) && AllLoaded(tiles) ==> !loadingTiles && BuiltField(built)
    {
      if Key(c) !in tiles {
        return false;
      }
      Deliver(c, data);
      built := FinishIfLoaded();
    }

    /** The loops of _getField: the queue emptied, every entry's `current`
        flag cleared, then the range walked. The cache keeps its entries; an
        entry is current exactly when the range requests it, and the queue
        holds the requests missing from the cache, in walk order. */
    method RebuildQueue(r: TileRange, z: nat)
      requires CacheValid() && Proper(r)
      modifies this`tiles, this`queue
      ensures CacheValid()
      ensures Load() == WalkRange(LoadState(Cleared(old(tiles)), []), r, r.maxY + 1, z, Elements(element))
    {
      queue := [];
      ClearCurrent();
      BuildQueue(r, z);
    }

    /** Records the view of a request and the tile zoom chosen for it. */
    method SetView(view: LatLngBounds, z: nat)
      requires Valid() && view.Normalized()
      modifies this`bounds, this`tileZoom
      ensures Valid() && bounds == Some(view) && tileZoom == z
    {
      bounds := Some(view);
      tileZoom := z;
    }

    /** The end of _getField: records the view and its tile zoom, then starts
        the loads of a non-empty queue, or builds the field at once when the
        queue is empty. */
    method LoadOrBuild(view: LatLngBounds, z: nat) returns (built: bool)
      requires Valid() && view.Normalized()
      modifies this`tiles, this`loadingTiles, this`bounds, this`tileZoom
      modifies this`p0, this`dlat, this`dlng, this`fnx, this`fny, this`fieldBounds
      modifies this`field, this`ufield, this`vfield, this`hasField
      ensures Valid()
      ensures bounds == Some(view) && tileZoom == z
      ensures Outcome(old(tiles), old(loadingTiles), old(hasField), old(Snapshot()), built)
    {
      SetView(view, z);
      built := false;
      if |queue| != 0 {
        GetTiles();
      } else {
        built := CreateField();
      }
    }

    /** The part of _getField that serves a view: picks the tile zoom and
        range, rebuilds the queue and either starts the loads or, when every
        tile is cached, builds the field at once. */
    method RequestView(view: LatLngBounds) returns (built: bool)
      requires Valid() && view.Normalized()
      modifies this`tiles, this`queue, this`loadingTiles, this`bounds, this`tileZoom
      modifies this`p0, this`dlat, this`dlng, this`fnx, this`fny, this`fieldBounds
      modifies this`field, this`ufield, this`vfield, this`hasField
      ensures Valid()
      ensures Serves(view, old(tiles), old(loadingTiles), old(hasField), old(Snapshot()), built)
    {
      var z := TileZoom(cfg, view);
      var r := GetTileRange(cfg, view, z);
      RebuildQueue(r, z);
      assert Valid();
      ghost var w := tiles;
      built := LoadOrBuild(view, z);
      assert Outcome(w, old(loadingTiles), old(hasField), old(Snapshot()), built);
    }

    /** _getField: cancels loads still pending, then, for a view and a
        non-zero map zoom, serves the view. */
    method GetField(view: Option<LatLngBounds>, mapZoom: int) returns (aborted: set<string>, built: bool)
      requires Valid()
      requires view.Some? ==> view.value.Normalized()
      modifies this
      ensures Valid()
      ensures aborted == if old(loadingTiles) then Unloaded(old(tiles)) else {}
      ensures view.None? || mapZoom == 0 ==> !built && unchanged(this)
      ensures view.Some? && mapZoom != 0 ==>
        Serves(view.value, old(tiles), old(loadingTiles), old(hasField), old(Snapshot()), built)
    {
      aborted := {};
      built := false;
      if loadingTiles {
        aborted := AbortLoading();
      }
      if view.None? || mapZoom == 0 {
        return;
      }
      built := RequestView(view.value);
    }
  }
}
