/** Coordinate arithmetic of the GRIB2 tile layer: the configured global grid,
    the choice of tile zoom, the clamped tile range of a view, field points
    (a tile index plus a pixel inside that tile) and their clamping to the grid.
    Coordinates are exact reals; `Floor` is `Math.floor`. */
module Grid {

  /** A geographic rectangle as Leaflet keeps it: south <= north, west <= east
      once normalised. */
  datatype LatLngBounds = LatLngBounds(south: real, west: real, north: real, east: real)
  {
    predicate Normalized() { south <= north && west <= east }

    /** Inclusive containment, as Leaflet's `LatLngBounds.contains`. */
    predicate Contains(lat: real, lng: real) {
      south <= lat <= north && west <= lng <= east
    }

    function NorthWest(): LatLng { LatLng(north, west) }
    function SouthEast(): LatLng { LatLng(south, east) }
  }

  datatype LatLng = LatLng(lat: real, lng: real)

  function Min(a: real, b: real): real { if a <= b then a else b }
  function Max(a: real, b: real): real { if a <= b then b else a }

  /** The rectangle spanned by two corners (Leaflet's `latLngBounds(a, b)`). */
  function BoundsOf(a: LatLng, b: LatLng): (r: LatLngBounds)
    ensures r.Normalized()
    ensures r.Contains(a.lat, a.lng) && r.Contains(b.lat, b.lng)
    ensures (r.south == a.lat || r.south == b.lat) && (r.north == a.lat || r.north == b.lat)
    ensures (r.west == a.lng || r.west == b.lng) && (r.east == a.lng || r.east == b.lng)
  {
    LatLngBounds(Min(a.lat, b.lat), Min(a.lng, b.lng), Max(a.lat, b.lat), Max(a.lng, b.lng))
  }

  /** Layer options: the global grid's bounds, the tile size in grid cells
      (`tileSize`, tnx by tny) and the list of tile zoom levels. */
  datatype Config = Config(bounds: LatLngBounds, tnx: int, tny: int, tileZoom: seq<nat>)
  {
    /** A usable configuration: a non-empty grid, tiles of at least two cells
        per side (the far-corner roll-over puts a point on pixel 1) and at
        least one zoom level. */
    predicate Valid() {
      bounds.south < bounds.north && bounds.west < bounds.east &&
      tnx >= 2 && tny >= 2 && |tileZoom| >= 1
    }

    function LatSpan(): real { bounds.north - bounds.south }
    function LonSpan(): real { bounds.east - bounds.west }
    function Origin(): LatLng { bounds.NorthWest() }
  }

  /** The shipped default options: bounds [22.4, 120.0]-[47.6, 150.0],
      zoom levels [1, 2], tiles of 241 by 253 cells. */
  function DefaultConfig(): (c: Config)
    ensures c.Valid()
  {
    Config(LatLngBounds(22.4, 120.0, 47.6, 150.0), 241, 253, [1, 2])
  }

  /** `Math.pow(2, z)`: tiles per axis at zoom z. */
  function Pow2(z: nat): (r: nat)
    ensures r >= 1
  {
    if z == 0 then 1 else 2 * Pow2(z - 1)
  }

  /** Degrees covered by one tile and by one grid cell at zoom z. */
  datatype Steps = Steps(tlat: real, tlon: real, dlat: real, dlon: real)

  function StepsAt(cfg: Config, z: nat): (s: Steps)
    requires cfg.Valid()
    ensures s.tlat > 0.0 && s.tlon > 0.0 && s.dlat > 0.0 && s.dlon > 0.0
    ensures s.dlat == s.tlat / cfg.tny as real && s.dlon == s.tlon / cfg.tnx as real
  {
    var nz := Pow2(z) as real;
    var tlat := cfg.LatSpan() / nz;
    var tlon := cfg.LonSpan() / nz;
    Steps(tlat, tlon, tlat / cfg.tny as real, tlon / cfg.tnx as real)
  }

  // ---------------------------------------------------------------------
  // Zoom choice (_getTileZoom)

  /** The tile count estimate u * v of a view at zoom z. */
  function TileCount(cfg: Config, view: LatLngBounds, z: nat): (n: real)
    requires cfg.Valid()
    ensures var s := StepsAt(cfg, z);
      n == ((view.east - view.west) * (view.north - view.south)) / (s.tlon * s.tlat)
  {
    var nz := Pow2(z) as real;
    var u := (view.east - view.west) / (cfg.LonSpan() / nz);
    var v := (view.north - view.south) / (cfg.LatSpan() / nz);
    QuotientProduct(view.east - view.west, cfg.LonSpan() / nz, view.north - view.south, cfg.LatSpan() / nz);
    u * v
  }

  /** (a / p) * (b / q) == (a * b) / (p * q) for non-zero p and q. */
  lemma QuotientProduct(a: real, p: real, b: real, q: real)
    requires p != 0.0 && q != 0.0
    ensures (a / p) * (b / q) == (a * b) / (p * q)
  {
  }

  predicate FewTiles(cfg: Config, view: LatLngBounds, z: nat)
    requires cfg.Valid()
  {
    TileCount(cfg, view, z) <= 4.0
  }

  /** Position in `tileZoom[..n]` of the level the backwards scan stops at:
      the last qualifying one, or position 0 when none qualifies. */
  function ZoomIndex(cfg: Config, view: LatLngBounds, n: nat): (k: nat)
    requires cfg.Valid() && 1 <= n <= |cfg.tileZoom|
    ensures k < n
    ensures forall j :: k < j < n ==> !FewTiles(cfg, view, cfg.tileZoom[j])
    ensures FewTiles(cfg, view, cfg.tileZoom[k]) ||
            (k == 0 && forall j :: 0 <= j < n ==> !FewTiles(cfg, view, cfg.tileZoom[j]))
  {
    if FewTiles(cfg, view, cfg.tileZoom[n - 1]) then n - 1
    else if n == 1 then 0
    else ZoomIndex(cfg, view, n - 1)
  }

  /** The tile zoom for a view: scanning `tileZoom` from its end, the first
      level whose estimate is at most 4 tiles, else `tileZoom[0]`. */
  function TileZoom(cfg: Config, view: LatLngBounds): (z: nat)
    requires cfg.Valid()
    ensures z in cfg.tileZoom
  {
    cfg.tileZoom[ZoomIndex(cfg, view, |cfg.tileZoom|)]
  }

  // ---------------------------------------------------------------------
  // Tile range (_getTileRange)

  /** An inclusive rectangle of tile indices. */
  datatype TileRange = TileRange(minX: int, minY: int, maxX: int, maxY: int)
  {
    predicate Within(nz: int) {
      0 <= minX <= maxX <= nz - 1 && 0 <= minY <= maxY <= nz - 1
    }
  }

  function MinInt(a: int, b: int): int { if a <= b then a else b }
  function MaxInt(a: int, b: int): int { if a <= b then b else a }

  /** `Math.max(Math.min(t, maxT), 0)`. */
  function ClampIndex(t: int, maxT: int): int { MaxInt(MinInt(t, maxT), 0) }

  /** `Math.floor(a / t)`: which span of width t, counted from the origin,
      holds the offset a. */
  function AxisIndex(a: real, t: real): int
    requires t > 0.0
  {
    (a / t).Floor
  }

  /** Index of the tile column holding longitude lng (unclamped). */
  function TileColumn(cfg: Config, z: nat, lng: real): int
    requires cfg.Valid()
  {
    AxisIndex(lng - cfg.Origin().lng, StepsAt(cfg, z).tlon)
  }

  /** Index of the tile row holding latitude lat (unclamped; rows count southwards). */
  function TileRow(cfg: Config, z: nat, lat: real): int
    requires cfg.Valid()
  {
    AxisIndex(cfg.Origin().lat - lat, StepsAt(cfg, z).tlat)
  }

  /** The tiles covering a view at zoom z, clamped to the grid. */
  function GetTileRange(cfg: Config, view: LatLngBounds, z: nat): (r: TileRange)
    requires cfg.Valid()
    ensures r.Within(Pow2(z))
    ensures view.Normalized() ==>
      r.minX == ClampIndex(TileColumn(cfg, z, view.west), Pow2(z) - 1) &&
      r.maxX == ClampIndex(TileColumn(cfg, z, view.east), Pow2(z) - 1) &&
      r.minY == ClampIndex(TileRow(cfg, z, view.north), Pow2(z) - 1) &&
      r.maxY == ClampIndex(TileRow(cfg, z, view.south), Pow2(z) - 1)
  {
    var maxT := Pow2(z) - 1;
    var st := StepsAt(cfg, z);
    DivMonotone(view.west - cfg.Origin().lng, view.east - cfg.Origin().lng, st.tlon);
    DivMonotone(cfg.Origin().lat - view.north, cfg.Origin().lat - view.south, st.tlat);
    var n := ClampIndex(TileRow(cfg, z, view.north), maxT);
    var w := ClampIndex(TileColumn(cfg, z, view.west), maxT);
    var s := ClampIndex(TileRow(cfg, z, view.south), maxT);
    var e := ClampIndex(TileColumn(cfg, z, view.east), maxT);
    // L.Bounds keeps the component-wise minimum and maximum of its two points
    TileRange(MinInt(w, e), MinInt(n, s), MaxInt(w, e), MaxInt(n, s))
  }

  lemma DivMonotone(a: real, b: real, t: real)
    requires t > 0.0
    ensures a <= b ==> a / t <= b / t
  {
  }

  // ---------------------------------------------------------------------
  // Field points (getFieldPoint, _checkBounds, fieldPointToLatLng)

  /** A grid cell addressed by tile (tx, ty) and pixel (x, y) inside it. */
  datatype FieldPoint = FieldPoint(tx: int, ty: int, x: int, y: int)

  /** Column of the point in the stitched global grid. */
  function GlobalX(p: FieldPoint, tnx: int): int { p.tx * tnx + p.x }

  /** Row of the point in the stitched global grid. */
  function GlobalY(p: FieldPoint, tny: int): int { p.ty * tny + p.y }

  /** Global cell column holding longitude lng: floor of the offset in cells. */
  function CellColumn(cfg: Config, z: nat, lng: real): int
    requires cfg.Valid()
  {
    AxisIndex(lng - cfg.Origin().lng, StepsAt(cfg, z).dlon)
  }

  /** Global cell row holding latitude lat. */
  function CellRow(cfg: Config, z: nat, lat: real): int
    requires cfg.Valid()
  {
    AxisIndex(cfg.Origin().lat - lat, StepsAt(cfg, z).dlat)
  }

  lemma FloorShift(r: real, k: int)
    ensures (r + k as real).Floor == r.Floor + k
  {
  }

  /** Dividing by a tile span split into n cells multiplies by n cells per span. */
  lemma DivByCellSpan(t: real, f: real, n: real)
    requires t > 0.0 && n > 0.0
    ensures (t * f) / (t / n) == f * n
  {
  }

  lemma ScaleFraction(f: real, n: real)
    requires 0.0 <= f < 1.0 && n > 0.0
    ensures 0.0 <= f * n < n
  {
  }

  /** One axis of getFieldPoint: for an offset a from the origin, tiles of span
      t and n cells of width d = t / n per tile, the pixel inside the tile
      floor(a / t) lies in [0, n), and tile * n + pixel is the global cell
      floor(a / d). */
  lemma {:induction false} AxisSplit(a: real, t: real, n: int, d: real)
    requires t > 0.0 && n >= 1 && d == t / n as real
    ensures var tile := AxisIndex(a, t); var pix := AxisPixel(a, t, d, tile);
      0 <= pix < n && tile * n + pix == AxisIndex(a, d)
  {
    var tile := AxisIndex(a, t);
    var f := a / t - tile as real;
    PixelOfFraction(a, t, n, d);
    FractionCells(f, n);
    CellOfFraction(a, t, n, d);
    FloorShift(f * n as real, tile * n);
  }

  /** The in-tile pixel is the floor of the in-tile fraction times n. */
  lemma PixelOfFraction(a: real, t: real, n: int, d: real)
    requires t > 0.0 && n >= 1 && d == t / n as real
    ensures var tile := AxisIndex(a, t);
      AxisPixel(a, t, d, tile) == ((a / t - tile as real) * n as real).Floor
  {
    var tile := AxisIndex(a, t);
    PositiveQuotient(t, n as real);
    TileRemainderInCells(a, t, tile as real, n as real, d);
    PixelFloor(a, t, d, tile, (a / t - tile as real) * n as real);
  }

  lemma PositiveQuotient(t: real, n: real)
    requires t > 0.0 && n > 0.0
    ensures t / n > 0.0
  {
  }

  lemma PixelFloor(a: real, t: real, d: real, tile: int, x: real)
    requires d > 0.0 && x == (a - t * tile as real) / d
    ensures AxisPixel(a, t, d, tile) == x.Floor
  {
  }

  lemma TileRemainderInCells(a: real, t: real, k: real, n: real, d: real)
    requires t > 0.0 && n > 0.0 && d == t / n
    ensures (a - t * k) / d == (a / t - k) * n
  {
    var f := a / t - k;
    assert a - t * k == t * f by {
      assert a == t * (a / t);
    }
    DivByCellSpan(t, f, n);
  }

  /** The global cell is the tile's first cell plus the fraction's cells. */
  lemma CellOfFraction(a: real, t: real, n: int, d: real)
    requires t > 0.0 && n >= 1 && d == t / n as real
    ensures var tile := AxisIndex(a, t);
      a / d == (a / t - tile as real) * n as real + (tile * n) as real
  {
    var q := a / t;
    DivByCellSpan(t, q, n as real);
    assert a == t * q;
  }

  /** A fraction in [0, 1) times n cells floors to a cell in [0, n). */
  lemma FractionCells(f: real, n: int)
    requires 0.0 <= f < 1.0 && n >= 1
    ensures 0 <= (f * n as real).Floor < n
  {
    ScaleFraction(f, n as real);
  }

  /** The far-corner "plus" step on one field point: one cell further on each
      axis, except that a step past the last pixel of a tile lands on pixel 1
      (not 0) of the next tile. */
  function PlusStep(p: FieldPoint, tnx: int, tny: int): (r: FieldPoint)
    requires tnx >= 2 && tny >= 2
    requires 0 <= p.x < tnx && 0 <= p.y < tny
    ensures 1 <= r.x < tnx && 1 <= r.y < tny
    ensures r.tx == p.tx || r.tx == p.tx + 1
    ensures r.ty == p.ty || r.ty == p.ty + 1
    ensures GlobalX(r, tnx) == GlobalX(p, tnx) + (if p.x == tnx - 1 then 2 else 1)
    ensures GlobalY(r, tny) == GlobalY(p, tny) + (if p.y == tny - 1 then 2 else 1)
  {
    var (tx, x) := if p.x + 1 < tnx then (p.tx, p.x + 1) else (p.tx + 1, 1);
    var (ty, y) := if p.y + 1 < tny then (p.ty, p.y + 1) else (p.ty + 1, 1);
    FieldPoint(tx, ty, x, y)
  }

  /** The pixel inside tile `tile` (of span t) holding offset a, in cells of
      width d, measured from the tile's own origin. */
  function AxisPixel(a: real, t: real, d: real, tile: int): int
    requires d > 0.0
  {
    ((a - t * (tile as real)) / d).Floor
  }

  /** The unrounded part of getFieldPoint: the tile index, then the pixel
      inside that tile measured from the tile's origin (the source's
      `lng - tox` and `toy - lat`, which are the offsets from the grid origin
      less the tile's offset). */
  function RawFieldPoint(cfg: Config, z: nat, ll: LatLng): FieldPoint
    requires cfg.Valid()
  {
    var s := StepsAt(cfg, z);
    var origin := cfg.Origin();
    var ax := ll.lng - origin.lng;
    var ay := origin.lat - ll.lat;
    var tx := AxisIndex(ax, s.tlon);
    var ty := AxisIndex(ay, s.tlat);
    FieldPoint(tx, ty, AxisPixel(ax, s.tlon, s.dlon, tx), AxisPixel(ay, s.tlat, s.dlat, ty))
  }

  /** The raw field point's pixel lies inside its tile, and tile and pixel
      together name the global cell holding the point. */
  lemma {:induction false} RawFieldPointSplit(cfg: Config, z: nat, ll: LatLng)
    requires cfg.Valid()
    ensures var p := RawFieldPoint(cfg, z, ll);
      0 <= p.x < cfg.tnx && 0 <= p.y < cfg.tny &&
      p.tx == TileColumn(cfg, z, ll.lng) && p.ty == TileRow(cfg, z, ll.lat) &&
      GlobalX(p, cfg.tnx) == CellColumn(cfg, z, ll.lng) &&
      GlobalY(p, cfg.tny) == CellRow(cfg, z, ll.lat)
  {
    var s := StepsAt(cfg, z);
    var origin := cfg.Origin();
    AxisSplit(ll.lng - origin.lng, s.tlon, cfg.tnx, s.dlon);
    AxisSplit(origin.lat - ll.lat, s.tlat, cfg.tny, s.dlat);
  }

  /** getFieldPoint: the tile and in-tile pixel of a geographic point at zoom z;
      with `plus` the far-corner step is applied. */
  function GetFieldPoint(cfg: Config, z: nat, ll: LatLng, plus: bool): (p: FieldPoint)
    requires cfg.Valid()
    ensures !plus ==> 0 <= p.x < cfg.tnx && 0 <= p.y < cfg.tny
    ensures !plus ==> p.tx == TileColumn(cfg, z, ll.lng) && p.ty == TileRow(cfg, z, ll.lat)
    ensures !plus ==> GlobalX(p, cfg.tnx) == CellColumn(cfg, z, ll.lng)
    ensures !plus ==> GlobalY(p, cfg.tny) == CellRow(cfg, z, ll.lat)
    ensures plus ==> 1 <= p.x < cfg.tnx && 1 <= p.y < cfg.tny
    ensures plus ==> CellColumn(cfg, z, ll.lng) + 1 <= GlobalX(p, cfg.tnx) <= CellColumn(cfg, z, ll.lng) + 2
    ensures plus ==> CellRow(cfg, z, ll.lat) + 1 <= GlobalY(p, cfg.tny) <= CellRow(cfg, z, ll.lat) + 2
  {
    RawFieldPointSplit(cfg, z, ll);
    var p := RawFieldPoint(cfg, z, ll);
    if plus then PlusStep(p, cfg.tnx, cfg.tny) else p
  }

  function ClampAxis(tile: int, pix: int, nz: int, n: int): (int, int)
  {
    if tile < 0 then (0, 0)
    else if tile >= nz then (nz - 1, n - 1)
    else (tile, pix)
  }

  /** _checkBounds on values: a tile index below 0 moves to tile 0, pixel 0;
      one at or above 2^z moves to the last tile's last pixel; an index in
      range is left alone, each axis on its own. */
  function ClampPoint(p: FieldPoint, nz: int, tnx: int, tny: int): (r: FieldPoint)
    requires nz >= 1
    ensures 0 <= r.tx < nz && 0 <= r.ty < nz
    ensures 0 <= p.tx < nz ==> r.tx == p.tx && r.x == p.x
    ensures 0 <= p.ty < nz ==> r.ty == p.ty && r.y == p.y
    ensures p.tx < 0 ==> r.tx == 0 && r.x == 0
    ensures p.tx >= nz ==> r.tx == nz - 1 && r.x == tnx - 1
    ensures p.ty < 0 ==> r.ty == 0 && r.y == 0
    ensures p.ty >= nz ==> r.ty == nz - 1 && r.y == tny - 1
  {
    var (tx, x) := ClampAxis(p.tx, p.x, nz, tnx);
    var (ty, y) := ClampAxis(p.ty, p.y, nz, tny);
    FieldPoint(tx, ty, x, y)
  }

  function ClampInt(v: int, lo: int, hi: int): int
  {
    if v < lo then lo else if v > hi then hi else v
  }

  lemma MulMonotone(a: int, b: int, n: int)
    requires a <= b && n >= 0
    ensures a * n <= b * n
  {
    assert b * n - a * n == (b - a) * n;
  }

  /** On one axis with the pixel inside its tile, clamping the tile index
      clamps the global cell index to [0, nz * n - 1]. */
  lemma {:induction false} ClampAxisGlobal(tile: int, pix: int, nz: int, n: int)
    requires nz >= 1 && n >= 1 && 0 <= pix < n
    ensures var (t, x) := ClampAxis(tile, pix, nz, n);
      0 <= x < n && t * n + x == ClampInt(tile * n + pix, 0, nz * n - 1)
  {
    if tile < 0 {
      MulMonotone(tile, -1, n);
    } else if tile >= nz {
      MulMonotone(nz, tile, n);
      assert (nz - 1) * n == nz * n - n;
    } else {
      MulMonotone(tile, nz - 1, n);
      MulMonotone(0, tile, n);
      assert (nz - 1) * n == nz * n - n;
    }
  }

  /** k tiles of span t, each n cells of width d = t / n, span k * n cells. */
  lemma TilesOfCells(t: real, d: real, n: int, k: int)
    requires n >= 1 && d == t / n as real
    ensures t * k as real == d * (k * n) as real
  {
    assert t == d * n as real;
  }

  /** fieldPointToLatLng: the north-west corner of the point's cell. */
  function FieldPointToLatLng(cfg: Config, z: nat, p: FieldPoint): (ll: LatLng)
    requires cfg.Valid()
    ensures ll.lng == cfg.Origin().lng + StepsAt(cfg, z).dlon * GlobalX(p, cfg.tnx) as real
    ensures ll.lat == cfg.Origin().lat - StepsAt(cfg, z).dlat * GlobalY(p, cfg.tny) as real
  {
    var s := StepsAt(cfg, z);
    var origin := cfg.Origin();
    TilesOfCells(s.tlon, s.dlon, cfg.tnx, p.tx);
    TilesOfCells(s.tlat, s.dlat, cfg.tny, p.ty);
    LatLng(origin.lat - s.tlat * p.ty as real - s.dlat * p.y as real,
           origin.lng + s.tlon * p.tx as real + s.dlon * p.x as real)
  }

  /** fieldPointToLatLng inverts getFieldPoint up to one cell: the cell corner
      it returns lies at most one cell north-west of the original point. */
  lemma FieldPointRoundTrip(cfg: Config, z: nat, ll: LatLng)
    requires cfg.Valid()
    ensures var c := FieldPointToLatLng(cfg, z, GetFieldPoint(cfg, z, ll, false));
      var s := StepsAt(cfg, z);
      c.lng <= ll.lng < c.lng + s.dlon && c.lat - s.dlat < ll.lat <= c.lat
  {
    RoundTripLng(cfg, z, ll);
    RoundTripLat(cfg, z, ll);
  }

  lemma RoundTripLng(cfg: Config, z: nat, ll: LatLng)
    requires cfg.Valid()
    ensures var c := FieldPointToLatLng(cfg, z, GetFieldPoint(cfg, z, ll, false));
      c.lng <= ll.lng < c.lng + StepsAt(cfg, z).dlon
  {
    var s := StepsAt(cfg, z);
    var p := GetFieldPoint(cfg, z, ll, false);
    CornerEastward(cfg.Origin().lng, ll.lng, s.dlon, GlobalX(p, cfg.tnx));
  }

  lemma RoundTripLat(cfg: Config, z: nat, ll: LatLng)
    requires cfg.Valid()
    ensures var c := FieldPointToLatLng(cfg, z, GetFieldPoint(cfg, z, ll, false));
      c.lat - StepsAt(cfg, z).dlat < ll.lat <= c.lat
  {
    var s := StepsAt(cfg, z);
    var p := GetFieldPoint(cfg, z, ll, false);
    CornerSouthward(cfg.Origin().lat, ll.lat, s.dlat, GlobalY(p, cfg.tny));
  }

  /** The corner of the g-th cell east of o holds v when g = floor((v - o) / d). */
  lemma CornerEastward(o: real, v: real, d: real, g: int)
    requires d > 0.0 && g == AxisIndex(v - o, d)
    ensures o + d * (g as real) <= v < o + d * (g as real) + d
  {
    CellCorner(v - o, d);
    var x := d * (g as real);
    assert x <= v - o < x + d;
  }

  /** The corner of the g-th cell south of o holds v when g = floor((o - v) / d). */
  lemma CornerSouthward(o: real, v: real, d: real, g: int)
    requires d > 0.0 && g == AxisIndex(o - v, d)
    ensures o - d * (g as real) - d < v <= o - d * (g as real)
  {
    CellCorner(o - v, d);
    var x := d * (g as real);
    assert x <= o - v < x + d;
  }

  /** The cell floor(a / d) starts at most one cell width d before a. */
  lemma CellCorner(a: real, d: real)
    requires d > 0.0
    ensures d * (AxisIndex(a, d) as real) <= a
    ensures a < d * (AxisIndex(a, d) as real) + d
  {
    CellCornerBelow(a, d);
    CellCornerAbove(a, d);
  }

  lemma CellCornerBelow(a: real, d: real)
    requires d > 0.0
    ensures d * ((a / d).Floor as real) <= a
  {
    var q := a / d;
    var gr := q.Floor as real;
    var f := q - gr;
    assert 0.0 <= f;
    assert a == d * q;
    assert a - d * gr == d * f;
    ScaleLe(d, 0.0, f);
  }

  lemma CellCornerAbove(a: real, d: real)
    requires d > 0.0
    ensures a < d * ((a / d).Floor as real) + d
  {
    var q := a / d;
    var gr := q.Floor as real;
    var f := q - gr;
    assert f < 1.0;
    assert a == d * q;
    assert a - d * gr == d * f;
    ScaleLt(d, f, 1.0);
  }

  lemma ScaleLe(d: real, x: real, y: real)
    requires d > 0.0 && x <= y
    ensures d * x <= d * y
  {
    assert d * y - d * x == d * (y - x);
  }

  lemma ScaleLt(d: real, x: real, y: real)
    requires d > 0.0 && x < y
    ensures d * x < d * y
  {
    assert d * y - d * x == d * (y - x);
  }

  /** The two clamped corners of the field for a view, as _createField takes
      them: the cell holding the view's north-west corner, and the far-corner
      step past the cell holding its south-east corner, each clamped to the
      grid. */
  function NorthWestCorner(cfg: Config, z: nat, view: LatLngBounds): (p: FieldPoint)
    requires cfg.Valid()
    ensures 0 <= p.x < cfg.tnx && 0 <= p.y < cfg.tny
    ensures GlobalX(p, cfg.tnx) == ClampInt(CellColumn(cfg, z, view.west), 0, Pow2(z) * cfg.tnx - 1)
    ensures GlobalY(p, cfg.tny) == ClampInt(CellRow(cfg, z, view.north), 0, Pow2(z) * cfg.tny - 1)
  {
    var q := GetFieldPoint(cfg, z, view.NorthWest(), false);
    ClampAxisGlobal(q.tx, q.x, Pow2(z), cfg.tnx);
    ClampAxisGlobal(q.ty, q.y, Pow2(z), cfg.tny);
    ClampPoint(q, Pow2(z), cfg.tnx, cfg.tny)
  }

  function SouthEastCorner(cfg: Config, z: nat, view: LatLngBounds): (p: FieldPoint)
    requires cfg.Valid()
    ensures 0 <= p.x < cfg.tnx && 0 <= p.y < cfg.tny
    ensures var q := GetFieldPoint(cfg, z, view.SouthEast(), true);
      GlobalX(p, cfg.tnx) == ClampInt(GlobalX(q, cfg.tnx), 0, Pow2(z) * cfg.tnx - 1) &&
      GlobalY(p, cfg.tny) == ClampInt(GlobalY(q, cfg.tny), 0, Pow2(z) * cfg.tny - 1)
  {
    var q := GetFieldPoint(cfg, z, view.SouthEast(), true);
    ClampAxisGlobal(q.tx, q.x, Pow2(z), cfg.tnx);
    ClampAxisGlobal(q.ty, q.y, Pow2(z), cfg.tny);
    ClampPoint(q, Pow2(z), cfg.tnx, cfg.tny)
  }

  /** Field width `fnx` and height `fny` between two corners. */
  function FieldWidth(p1: FieldPoint, p2: FieldPoint, tnx: int): (w: int)
    ensures w == GlobalX(p2, tnx) - GlobalX(p1, tnx) + 1
  {
    assert (p2.tx - p1.tx) * tnx == p2.tx * tnx - p1.tx * tnx;
    (p2.tx - p1.tx) * tnx - p1.x + p2.x + 1
  }

  function FieldHeight(p1: FieldPoint, p2: FieldPoint, tny: int): (h: int)
    ensures h == GlobalY(p2, tny) - GlobalY(p1, tny) + 1
  {
    assert (p2.ty - p1.ty) * tny == p2.ty * tny - p1.ty * tny;
    (p2.ty - p1.ty) * tny - p1.y + p2.y + 1
  }

  /** Corners that describe a non-empty field inside the grid. */
  predicate CornersOk(p1: FieldPoint, p2: FieldPoint, tnx: int, tny: int, nz: int)
  {
    tnx >= 2 && tny >= 2 &&
    0 <= p1.tx && 0 <= p1.ty && p2.tx < nz && p2.ty < nz &&
    0 <= p1.x < tnx && 0 <= p1.y < tny && 0 <= p2.x < tnx && 0 <= p2.y < tny &&
    GlobalX(p1, tnx) <= GlobalX(p2, tnx) && GlobalY(p1, tny) <= GlobalY(p2, tny)
  }

  /** For a normalised view the clamped corners are ordered, lie in the grid and
      give a field of at least one cell on each axis. */
  lemma {:induction false} CornersOrdered(cfg: Config, z: nat, view: LatLngBounds)
    requires cfg.Valid() && view.Normalized()
    ensures var p1 := NorthWestCorner(cfg, z, view);
      var p2 := SouthEastCorner(cfg, z, view);
      CornersOk(p1, p2, cfg.tnx, cfg.tny, Pow2(z)) &&
      FieldWidth(p1, p2, cfg.tnx) >= 1 && FieldHeight(p1, p2, cfg.tny) >= 1
  {
    ColumnsOrdered(cfg, z, view);
    RowsOrdered(cfg, z, view);
  }

  /** CornersOrdered along the x axis. */
  lemma ColumnsOrdered(cfg: Config, z: nat, view: LatLngBounds)
    requires cfg.Valid() && view.Normalized()
    ensures GlobalX(NorthWestCorner(cfg, z, view), cfg.tnx) <= GlobalX(SouthEastCorner(cfg, z, view), cfg.tnx)
  {
    var a1 := GetFieldPoint(cfg, z, view.NorthWest(), false);
    var a2 := GetFieldPoint(cfg, z, view.SouthEast(), true);
    // the unrounded cell offsets are monotone in the coordinates
    DivMonotone(view.west - cfg.Origin().lng, view.east - cfg.Origin().lng, StepsAt(cfg, z).dlon);
    assert CellColumn(cfg, z, view.west) <= CellColumn(cfg, z, view.east);
    ClampAxisGlobal(a1.tx, a1.x, Pow2(z), cfg.tnx);
    ClampAxisGlobal(a2.tx, a2.x, Pow2(z), cfg.tnx);
  }

  /** CornersOrdered along the y axis. */
  lemma RowsOrdered(cfg: Config, z: nat, view: LatLngBounds)
    requires cfg.Valid() && view.Normalized()
    ensures GlobalY(NorthWestCorner(cfg, z, view), cfg.tny) <= GlobalY(SouthEastCorner(cfg, z, view), cfg.tny)
  {
    var a1 := GetFieldPoint(cfg, z, view.NorthWest(), false);
    var a2 := GetFieldPoint(cfg, z, view.SouthEast(), true);
    DivMonotone(cfg.Origin().lat - view.north, cfg.Origin().lat - view.south, StepsAt(cfg, z).dlat);
    assert CellRow(cfg, z, view.north) <= CellRow(cfg, z, view.south);
    ClampAxisGlobal(a1.ty, a1.y, Pow2(z), cfg.tny);
    ClampAxisGlobal(a2.ty, a2.y, Pow2(z), cfg.tny);
  }

  /** The north-west corner's tile is the range's first tile. */
  lemma NorthWestCornerStartsRange(cfg: Config, z: nat, view: LatLngBounds)
    requires cfg.Valid() && view.Normalized()
    ensures var p1 := NorthWestCorner(cfg, z, view);
      var r := GetTileRange(cfg, view, z);
      p1.tx == r.minX && p1.ty == r.minY
  {
  }

  /** The far corner's roll-over can leave the loaded tile range: with the
      default options at zoom 1, a view whose south-east corner sits in the
      last cell column of tile column 0 needs tile column 1, which the range
      (a single column) does not request. */
  lemma SouthEastCornerCanLeaveRange()
    ensures var cfg := DefaultConfig();
      var view := LatLngBounds(40.0, 121.0, 45.0, 134.95);
      var r := GetTileRange(cfg, view, 1);
      var p2 := SouthEastCorner(cfg, 1, view);
      view.Normalized() && r.maxX == 0 && p2.tx == 1
  {
    var cfg := DefaultConfig();
    var view := LatLngBounds(40.0, 121.0, 45.0, 134.95);
    var s := StepsAt(cfg, 1);
    assert s.tlon == 15.0;
    assert s.dlon == 15.0 / 241.0;
    assert TileColumn(cfg, 1, view.east) == 0 by {
      assert (134.95 - 120.0) / 15.0 == 14.95 / 15.0;
    }
    var a2 := GetFieldPoint(cfg, 1, view.SouthEast(), false);
    assert (14.95 - 0.0) / (15.0 / 241.0) == 14.95 * 241.0 / 15.0;
    assert CellColumn(cfg, 1, view.east) == 240;
    assert a2.tx == 0 && a2.x == 240;
  }

  /** The tile-count test does not bound the tile range: with the default
      options a view whose estimate at zoom 2 is 3.61 tiles passes the test,
      yet its range and its corners span three tiles on each axis. */
  lemma ThreeTilesAtChosenZoom()
    ensures var cfg := DefaultConfig();
      var view := LatLngBounds(29.645, 127.125, 41.615, 141.375);
      view.Normalized() && FewTiles(cfg, view, 2) && TileZoom(cfg, view) == 2 &&
      GetTileRange(cfg, view, 2) == TileRange(0, 0, 2, 2) &&
      NorthWestCorner(cfg, 2, view).tx == 0 && SouthEastCorner(cfg, 2, view).tx == 2
  {
    ProbeZoom();
    ProbeRange();
    ProbeCorners();
  }

  /** The probe view passes the test at zoom 2, the last listed level. */
  lemma ProbeZoom()
    ensures var cfg := DefaultConfig();
      var view := LatLngBounds(29.645, 127.125, 41.615, 141.375);
      FewTiles(cfg, view, 2) && TileZoom(cfg, view) == 2
  {
    var cfg := DefaultConfig();
    var view := LatLngBounds(29.645, 127.125, 41.615, 141.375);
    var s := StepsAt(cfg, 2);
    assert s.tlon == 7.5 && s.tlat == 6.3;
    assert TileCount(cfg, view, 2) == 3.61;
    assert ZoomIndex(cfg, view, 2) == 1;
  }

  /** Its tile range at zoom 2 spans tiles 0 to 2 on both axes. */
  lemma ProbeRange()
    ensures var cfg := DefaultConfig();
      var view := LatLngBounds(29.645, 127.125, 41.615, 141.375);
      GetTileRange(cfg, view, 2) == TileRange(0, 0, 2, 2)
  {
    var cfg := DefaultConfig();
    var view := LatLngBounds(29.645, 127.125, 41.615, 141.375);
    var s := StepsAt(cfg, 2);
    assert s.tlon == 7.5 && s.tlat == 6.3;
    assert TileColumn(cfg, 2, view.west) == 0 by {
      assert (127.125 - 120.0) / 7.5 == 0.95;
    }
    assert TileColumn(cfg, 2, view.east) == 2 by {
      assert (141.375 - 120.0) / 7.5 == 2.85;
    }
    assert TileRow(cfg, 2, view.north) == 0 by {
      assert (47.6 - 41.615) / 6.3 == 0.95;
    }
    assert TileRow(cfg, 2, view.south) == 2 by {
      assert (47.6 - 29.645) / 6.3 == 2.85;
    }
  }

  /** Its clamped corners at zoom 2 lie in tile columns 0 and 2. */
  lemma ProbeCorners()
    ensures var cfg := DefaultConfig();
      var view := LatLngBounds(29.645, 127.125, 41.615, 141.375);
      NorthWestCorner(cfg, 2, view).tx == 0 && SouthEastCorner(cfg, 2, view).tx == 2
  {
    var cfg := DefaultConfig();
    var view := LatLngBounds(29.645, 127.125, 41.615, 141.375);
    var s := StepsAt(cfg, 2);
    assert s.tlon == 7.5;
    assert TileColumn(cfg, 2, view.west) == 0 by {
      assert (127.125 - 120.0) / 7.5 == 0.95;
    }
    assert CellColumn(cfg, 2, view.east) == 686 by {
      assert (141.375 - 120.0) / (7.5 / 241.0) == 686.85;
    }
  }
}
