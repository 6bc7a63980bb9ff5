/** Reading the stitched field: flat row-major indexing, the fractional
    offsets getDx / getDy, and bilinear interpolation of scalar and wind
    values. Coordinates and samples are reals. */
module Sampling {
  import opened Grid

  /** A sample as the layer hands it out: null outside the field bounds, a
      number, or NaN when one of the four neighbours read lies outside the
      buffer (JavaScript reads `undefined` there and the blend becomes NaN). */
  datatype Sample = Null | Num(value: real) | NaN

  /** A built field: its north-west grid point p0, the cell sizes, the width
      fnx and height fny in cells, the bounds it answers for, and its buffers
      (`data` for a scalar element, `u` and `v` for wind). */
  datatype Field = Field(p0: LatLng, dlat: real, dlng: real, fnx: int, fny: int,
                         bounds: LatLngBounds, data: seq<real>, u: seq<real>, v: seq<real>)
  {
    /** The geometry _createField gives a field: positive cell sizes, at least
        one cell each way, and bounds running from p0 to the grid point of the
        last column and row. */
    predicate Shaped() {
      dlat > 0.0 && dlng > 0.0 && fnx >= 1 && fny >= 1 &&
      bounds.north == p0.lat && bounds.west == p0.lng &&
      bounds.south == p0.lat - dlat * ((fny - 1) as real) &&
      bounds.east == p0.lng + dlng * ((fnx - 1) as real)
    }
  }

  /** A getDx / getDy result: [index, fraction], or [null, null]. */
  datatype Offset = Offset(index: int, frac: real) | NoOffset

  /** x(i, j) and v(i, j): the value at column i, row j of a row-major buffer
      fnx cells wide, read at flat index fnx * j + i. */
  function Read(buf: seq<real>, fnx: int, i: int, j: int): (s: Sample)
    ensures s != Null
    ensures s.Num? <==> 0 <= fnx * j + i < |buf|
  {
    var n := fnx * j + i;
    if 0 <= n < |buf| then Num(buf[n]) else NaN
  }

  /** Row j of a grid of fny rows of fnx cells occupies [fnx*j, fnx*j + fnx). */
  lemma RowBound(fnx: int, fny: int, j: int)
    requires 0 <= j < fny && fnx >= 0
    ensures 0 <= fnx * j && fnx * j + fnx <= fnx * fny
  {
    MulMonotone(j + 1, fny, fnx);
    MulMonotone(0, j, fnx);
  }

  /** In a buffer of fny rows of fnx cells, x(i, j) for a cell of the grid
      is the stored value of column i, row j. */
  lemma ReadCell(buf: seq<real>, fnx: int, fny: int, i: int, j: int)
    requires |buf| == fnx * fny
    requires 0 <= i < fnx && 0 <= j < fny
    ensures 0 <= fnx * j + i < |buf| && Read(buf, fnx, i, j) == Num(buf[fnx * j + i])
  {
    RowBound(fnx, fny, j);
  }

  /** The four bilinear weights for fractions (x, y). */
  function Weights(x: real, y: real): (real, real, real, real)
  {
    var rx := 1.0 - x;
    var ry := 1.0 - y;
    (rx * ry, x * ry, rx * y, x * y)
  }

  /** The weights always sum to one. */
  lemma WeightsSumToOne(x: real, y: real)
    ensures var (a, b, c, d) := Weights(x, y); a + b + c + d == 1.0
  {
    var (a, b, c, d) := Weights(x, y);
    assert a + b == 1.0 - y;
    assert c + d == y;
  }

  /** p00 * a + p10 * b + p01 * c + p11 * d, NaN if any input is not a number. */
  function Combine(w: (real, real, real, real), s00: Sample, s10: Sample, s01: Sample, s11: Sample): (s: Sample)
    ensures s != Null
    ensures s.Num? <==> s00.Num? && s10.Num? && s01.Num? && s11.Num?
  {
    if s00.Num? && s10.Num? && s01.Num? && s11.Num? then
      Num(s00.value * w.0 + s10.value * w.1 + s01.value * w.2 + s11.value * w.3)
    else NaN
  }

  /** _bilinearInterpolate over reals. */
  function Blend(x: real, y: real, p00: real, p10: real, p01: real, p11: real): real
  {
    var (a, b, c, d) := Weights(x, y);
    p00 * a + p10 * b + p01 * c + p11 * d
  }

  /** _bilinearInterpolate over samples: NaN as soon as one neighbour is. */
  function BlendSample(x: real, y: real, s00: Sample, s10: Sample, s01: Sample, s11: Sample): (s: Sample)
    ensures s != Null
    ensures s.Num? <==> s00.Num? && s10.Num? && s01.Num? && s11.Num?
    ensures s.Num? ==> s.value == Blend(x, y, s00.value, s10.value, s01.value, s11.value)
  {
    Combine(Weights(x, y), s00, s10, s01, s11)
  }

  /** _bilinearInterpolateVector: one set of weights, applied to the u and the
      v component of each neighbour; the result is the scalar blend of each
      component. */
  function BlendVector(x: real, y: real, q00: (Sample, Sample), q10: (Sample, Sample),
                       q01: (Sample, Sample), q11: (Sample, Sample)): (r: (Sample, Sample))
    ensures r == (BlendSample(x, y, q00.0, q10.0, q01.0, q11.0), BlendSample(x, y, q00.1, q10.1, q01.1, q11.1))
  {
    var w := Weights(x, y);
    (Combine(w, q00.0, q10.0, q01.0, q11.0), Combine(w, q00.1, q10.1, q01.1, q11.1))
  }

  /** At the four corners of the unit square the blend returns that corner's
      value exactly. */
  lemma BlendCorners(p00: real, p10: real, p01: real, p11: real)
    ensures Blend(0.0, 0.0, p00, p10, p01, p11) == p00
    ensures Blend(1.0, 0.0, p00, p10, p01, p11) == p10
    ensures Blend(0.0, 1.0, p00, p10, p01, p11) == p01
    ensures Blend(1.0, 1.0, p00, p10, p01, p11) == p11
  {
  }

  /** Linear interpolation from p (at 0) to q (at 1). */
  function Lerp(x: real, p: real, q: real): real { p + x * (q - p) }

  lemma ScaledNonNeg(x: real, t: real)
    requires 0.0 <= x && t >= 0.0
    ensures 0.0 <= x * t
  {
  }

  lemma ScaledAtMost(x: real, t: real)
    requires x <= 1.0 && t >= 0.0
    ensures x * t <= t
  {
    assert t - x * t == (1.0 - x) * t;
    ScaledNonNeg(1.0 - x, t);
  }

  lemma LerpAbove(x: real, p: real, q: real)
    requires 0.0 <= x && p <= q
    ensures p <= Lerp(x, p, q)
  {
    ScaledNonNeg(x, q - p);
  }

  lemma LerpBelow(x: real, p: real, q: real)
    requires x <= 1.0 && p <= q
    ensures Lerp(x, p, q) <= q
  {
    ScaledAtMost(x, q - p);
  }

  lemma LerpSwap(x: real, p: real, q: real)
    ensures Lerp(x, p, q) == Lerp(1.0 - x, q, p)
  {
  }

  /** For a fraction in [0, 1] the interpolant stays between its ends. */
  lemma LerpBetween(x: real, p: real, q: real)
    requires 0.0 <= x <= 1.0
    ensures Min(p, q) <= Lerp(x, p, q) <= Max(p, q)
  {
    if p <= q {
      LerpAbove(x, p, q);
      LerpBelow(x, p, q);
    } else {
      LerpSwap(x, p, q);
      LerpAbove(1.0 - x, q, p);
      LerpBelow(1.0 - x, q, p);
    }
  }

  /** The bilinear blend is a linear interpolation along y between two
      linear interpolations along x. */
  lemma BlendIsLerp(x: real, y: real, p00: real, p10: real, p01: real, p11: real)
    ensures Blend(x, y, p00, p10, p01, p11) == Lerp(y, Lerp(x, p00, p10), Lerp(x, p01, p11))
  {
  }

  /** Inside the unit square the blend lies between the smallest and the
      largest corner value. */
  lemma BlendBetween(x: real, y: real, p00: real, p10: real, p01: real, p11: real)
    requires 0.0 <= x <= 1.0 && 0.0 <= y <= 1.0
    ensures var lo := Min(Min(p00, p10), Min(p01, p11));
      var hi := Max(Max(p00, p10), Max(p01, p11));
      lo <= Blend(x, y, p00, p10, p01, p11) <= hi
  {
    BlendIsLerp(x, y, p00, p10, p01, p11);
    LerpBetween(x, p00, p10);
    LerpBetween(x, p01, p11);
    LerpBetween(y, Lerp(x, p00, p10), Lerp(x, p01, p11));
  }

  /** The blend reproduces any bilinear surface k0 + kx*x + ky*y + kxy*x*y
      sampled at the corners of the unit square. */
  lemma BlendReproducesBilinear(x: real, y: real, k0: real, kx: real, ky: real, kxy: real)
    ensures Blend(x, y, k0, k0 + kx, k0 + ky, k0 + kx + ky + kxy) ==
            k0 + kx * x + ky * y + kxy * x * y
  {
    WeightsSumToOne(x, y);
    var (a, b, c, d) := Weights(x, y);
    assert b + d == x;
    assert c + d == y;
  }

  /** Division undoes multiplication by a non-zero cell size. */
  lemma MulDiv(d: real, t: real)
    requires d != 0.0
    ensures d * (t / d) == t
  {
  }

  lemma DivShift(t: real, d: real, k: real)
    requires d > 0.0
    ensures (t - d * k) / d == t / d - k
  {
    MulDiv(d, t);
    assert d * (t / d - k) == t - d * k;
  }

  lemma FloorFraction(q: real)
    ensures 0.0 <= q - (q.Floor as real) < 1.0
  {
  }

  /** One axis of getDx / getDy: with k = floor(t / d), the fraction
      (t - d*k) / d lies in [0, 1). */
  lemma FractionInUnit(t: real, d: real, k: int)
    requires d > 0.0 && k == (t / d).Floor
    ensures 0.0 <= (t - d * (k as real)) / d < 1.0
  {
    DivShift(t, d, k as real);
    FloorFraction(t / d);
  }

  /** d * (k + (t - d*k) / d) gives t back. */
  lemma FractionLocates(t: real, d: real, k: real)
    requires d > 0.0
    ensures d * (k + (t - d * k) / d) == t
  {
    var f := (t - d * k) / d;
    MulDiv(d, t - d * k);
    assert d * (k + f) == d * k + d * f;
  }

  lemma CellFraction(t: real, d: real, k: int)
    requires d > 0.0 && k == (t / d).Floor
    ensures 0.0 <= (t - d * (k as real)) / d < 1.0
    ensures d * ((k as real) + (t - d * (k as real)) / d) == t
  {
    FractionInUnit(t, d, k);
    FractionLocates(t, d, k as real);
  }

  /** getDx's column: the grid point at or west of v, counting cells of
      width d east from o. */
  function EastIndex(o: real, v: real, d: real): int
    requires d > 0.0
  {
    ((v - o) / d).Floor
  }

  /** getDx's fraction: how far v lies east of that grid point, in cells. */
  function EastFrac(o: real, v: real, d: real): real
    requires d > 0.0
  {
    (v - (o + d * (EastIndex(o, v, d) as real))) / d
  }

  /** getDy's row: the grid point at or north of v, counting cells of height
      d south from o. */
  function SouthIndex(o: real, v: real, d: real): int
    requires d > 0.0
  {
    ((o - v) / d).Floor
  }

  /** getDy's fraction: how far v lies south of that grid point, in cells. */
  function SouthFrac(o: real, v: real, d: real): real
    requires d > 0.0
  {
    ((o - d * (SouthIndex(o, v, d) as real)) - v) / d
  }

  /** The eastward fraction lies in [0, 1) and, added to the column, locates
      v exactly. */
  lemma EastFraction(o: real, v: real, d: real)
    requires d > 0.0
    ensures 0.0 <= EastFrac(o, v, d) < 1.0
    ensures o + d * ((EastIndex(o, v, d) as real) + EastFrac(o, v, d)) == v
  {
    var k := EastIndex(o, v, d);
    var t := v - o;
    CellFraction(t, d, k);
    assert EastFrac(o, v, d) == (t - d * (k as real)) / d by {
      assert v - (o + d * (k as real)) == t - d * (k as real);
    }
  }

  /** The southward fraction lies in [0, 1) and, added to the row, locates
      v exactly. */
  lemma SouthFraction(o: real, v: real, d: real)
    requires d > 0.0
    ensures 0.0 <= SouthFrac(o, v, d) < 1.0
    ensures o - d * ((SouthIndex(o, v, d) as real) + SouthFrac(o, v, d)) == v
  {
    var k := SouthIndex(o, v, d);
    var t := o - v;
    CellFraction(t, d, k);
    assert SouthFrac(o, v, d) == (t - d * (k as real)) / d by {
      assert (o - d * (k as real)) - v == t - d * (k as real);
    }
  }

  /** getDx: [null, null] west or east of the field bounds; otherwise the
      column of the grid point west of lng and the fraction of a cell from it
      to lng. */
  function GetDx(f: Field, lng: real): (r: Offset)
    requires f.dlng > 0.0
    ensures r.NoOffset? <==> lng < f.bounds.west || lng > f.bounds.east
    ensures r.Offset? ==> 0.0 <= r.frac < 1.0 && f.p0.lng + f.dlng * ((r.index as real) + r.frac) == lng
  {
    if lng < f.bounds.west || lng > f.bounds.east then NoOffset
    else
      EastFraction(f.p0.lng, lng, f.dlng);
      Offset(EastIndex(f.p0.lng, lng, f.dlng), EastFrac(f.p0.lng, lng, f.dlng))
  }

  /** getDy: [null, null] south or north of the field bounds; otherwise the
      row of the grid point north of lat and the fraction of a cell from it
      down to lat. */
  function GetDy(f: Field, lat: real): (r: Offset)
    requires f.dlat > 0.0
    ensures r.NoOffset? <==> lat < f.bounds.south || lat > f.bounds.north
    ensures r.Offset? ==> 0.0 <= r.frac < 1.0 && f.p0.lat - f.dlat * ((r.index as real) + r.frac) == lat
  {
    if lat < f.bounds.south || lat > f.bounds.north then NoOffset
    else
      SouthFraction(f.p0.lat, lat, f.dlat);
      Offset(SouthIndex(f.p0.lat, lat, f.dlat), SouthFrac(f.p0.lat, lat, f.dlat))
  }

  /** getValue on any of the field's buffers: null outside the field bounds,
      otherwise the blend of the four grid values around the point. */
  function ValueIn(f: Field, buf: seq<real>, ll: LatLng): (s: Sample)
    requires f.dlat > 0.0 && f.dlng > 0.0
    ensures s.Null? <==> !f.bounds.Contains(ll.lat, ll.lng)
  {
    if !f.bounds.Contains(ll.lat, ll.lng) then Null
    else
      var x := EastIndex(f.p0.lng, ll.lng, f.dlng);
      var y := SouthIndex(f.p0.lat, ll.lat, f.dlat);
      var dx := EastFrac(f.p0.lng, ll.lng, f.dlng);
      var dy := SouthFrac(f.p0.lat, ll.lat, f.dlat);
      BlendSample(dx, dy, Read(buf, f.fnx, x, y), Read(buf, f.fnx, x + 1, y),
                  Read(buf, f.fnx, x, y + 1), Read(buf, f.fnx, x + 1, y + 1))
  }

  /** getValue: the scalar element's value at ll. */
  function GetValue(f: Field, ll: LatLng): (s: Sample)
    requires f.dlat > 0.0 && f.dlng > 0.0
    ensures s.Null? <==> !f.bounds.Contains(ll.lat, ll.lng)
  {
    ValueIn(f, f.data, ll)
  }

  /** v(i, j): the wind pair at column i, row j. */
  function ReadVector(f: Field, i: int, j: int): (q: (Sample, Sample))
    ensures q.0 != Null && q.1 != Null
    ensures q.0.Num? <==> 0 <= f.fnx * j + i < |f.u|
    ensures q.1.Num? <==> 0 <= f.fnx * j + i < |f.v|
  {
    (Read(f.u, f.fnx, i, j), Read(f.v, f.fnx, i, j))
  }

  /** getVector: [null, null] outside the field bounds, otherwise the
      blended wind vector at ll. */
  function GetVector(f: Field, ll: LatLng): (r: (Sample, Sample))
    requires f.dlat > 0.0 && f.dlng > 0.0
    ensures r.0.Null? <==> !f.bounds.Contains(ll.lat, ll.lng)
    ensures r.1.Null? <==> !f.bounds.Contains(ll.lat, ll.lng)
  {
    if !f.bounds.Contains(ll.lat, ll.lng) then (Null, Null)
    else
      var x := EastIndex(f.p0.lng, ll.lng, f.dlng);
      var y := SouthIndex(f.p0.lat, ll.lat, f.dlat);
      var dx := EastFrac(f.p0.lng, ll.lng, f.dlng);
      var dy := SouthFrac(f.p0.lat, ll.lat, f.dlat);
      BlendVector(dx, dy, ReadVector(f, x, y), ReadVector(f, x + 1, y),
                  ReadVector(f, x, y + 1), ReadVector(f, x + 1, y + 1))
  }

  /** getValueXY: the blend at the offsets cached from getDx and getDy. */
  function GetValueXY(f: Field, X: Offset, Y: Offset): (s: Sample)
    ensures s.Null? <==> X.NoOffset? || Y.NoOffset?
  {
    if X.NoOffset? || Y.NoOffset? then Null
    else
      var x := X.index;
      var y := Y.index;
      BlendSample(X.frac, Y.frac, Read(f.data, f.fnx, x, y), Read(f.data, f.fnx, x + 1, y),
                  Read(f.data, f.fnx, x, y + 1), Read(f.data, f.fnx, x + 1, y + 1))
  }

  /** getVectorXY: the wind blend at the offsets cached from getDx and getDy. */
  function GetVectorXY(f: Field, X: Offset, Y: Offset): (r: (Sample, Sample))
    ensures r.0.Null? <==> X.NoOffset? || Y.NoOffset?
    ensures r.1.Null? <==> X.NoOffset? || Y.NoOffset?
  {
    if X.NoOffset? || Y.NoOffset? then (Null, Null)
    else
      var x := X.index;
      var y := Y.index;
      BlendVector(X.frac, Y.frac, ReadVector(f, x, y), ReadVector(f, x + 1, y),
                  ReadVector(f, x, y + 1), ReadVector(f, x + 1, y + 1))
  }

  /** The cached path agrees with the direct one: getValueXY(getDx(lng),
      getDy(lat)) is getValue(lat, lng), null included. */
  lemma ValueXYAgrees(f: Field, ll: LatLng)
    requires f.dlat > 0.0 && f.dlng > 0.0
    ensures GetValueXY(f, GetDx(f, ll.lng), GetDy(f, ll.lat)) == GetValue(f, ll)
  {
  }

  lemma VectorXYAgrees(f: Field, ll: LatLng)
    requires f.dlat > 0.0 && f.dlng > 0.0
    ensures GetVectorXY(f, GetDx(f, ll.lng), GetDy(f, ll.lat)) == GetVector(f, ll)
  {
  }

  /** getVector is getValue run on the u buffer and on the v buffer. */
  lemma VectorByComponent(f: Field, ll: LatLng)
    requires f.dlat > 0.0 && f.dlng > 0.0
    ensures GetVector(f, ll) == (ValueIn(f, f.u, ll), ValueIn(f, f.v, ll))
  {
  }

  /** Dividing a multiple of d by d gives the multiplier back. */
  lemma DivCancel(d: real, k: real)
    requires d > 0.0
    ensures (d * k) / d == k
  {
    MulDiv(d, d * k);
    assert d * ((d * k) / d) == d * k;
  }

  lemma DivStrict(a: real, b: real, d: real)
    requires d > 0.0 && a < b
    ensures a / d < b / d
  {
    MulDiv(d, a);
    MulDiv(d, b);
    assert d * (b / d) - d * (a / d) == d * (b / d - a / d);
  }

  /** A longitude on the grid line i cells east of o has column i and
      fraction 0. */
  lemma EastOnGrid(o: real, d: real, i: int, v: real)
    requires d > 0.0 && v == o + d * (i as real)
    ensures EastIndex(o, v, d) == i
    ensures EastFrac(o, v, d) == 0.0
  {
    assert v - o == d * (i as real);
    DivCancel(d, i as real);
    assert (v - o) / d == i as real;
  }

  /** A latitude on the grid line j cells south of o has row j and
      fraction 0. */
  lemma SouthOnGrid(o: real, d: real, j: int, v: real)
    requires d > 0.0 && v == o - d * (j as real)
    ensures SouthIndex(o, v, d) == j
    ensures SouthFrac(o, v, d) == 0.0
  {
    assert o - v == d * (j as real);
    DivCancel(d, j as real);
    assert (o - v) / d == j as real;
  }

  /** Around a cell whose east and south neighbours exist, all four reads
      land inside the buffer. */
  lemma NeighboursInside(buf: seq<real>, fnx: int, fny: int, x: int, y: int)
    requires |buf| == fnx * fny
    requires 0 <= x < fnx - 1 && 0 <= y < fny - 1
    ensures Read(buf, fnx, x, y).Num? && Read(buf, fnx, x + 1, y).Num?
    ensures Read(buf, fnx, x, y + 1).Num? && Read(buf, fnx, x + 1, y + 1).Num?
  {
    ReadCell(buf, fnx, fny, x, y);
    ReadCell(buf, fnx, fny, x + 1, y);
    ReadCell(buf, fnx, fny, x, y + 1);
    ReadCell(buf, fnx, fny, x + 1, y + 1);
  }

  /** ValueIn at a point inside the bounds whose column, row and fractions
      are known. */
  lemma ValueInUnfold(f: Field, buf: seq<real>, ll: LatLng, x: int, y: int, dx: real, dy: real)
    requires f.dlat > 0.0 && f.dlng > 0.0 && f.bounds.Contains(ll.lat, ll.lng)
    requires x == EastIndex(f.p0.lng, ll.lng, f.dlng) && dx == EastFrac(f.p0.lng, ll.lng, f.dlng)
    requires y == SouthIndex(f.p0.lat, ll.lat, f.dlat) && dy == SouthFrac(f.p0.lat, ll.lat, f.dlat)
    ensures ValueIn(f, buf, ll) == BlendSample(dx, dy, Read(buf, f.fnx, x, y), Read(buf, f.fnx, x + 1, y),
                                               Read(buf, f.fnx, x, y + 1), Read(buf, f.fnx, x + 1, y + 1))
  {
  }

  /** Grid points up to the last column and row lie inside the field bounds. */
  lemma GridPointInside(f: Field, i: int, j: int)
    requires f.Shaped()
    requires 0 <= i < f.fnx && 0 <= j < f.fny
    ensures f.bounds.Contains(f.p0.lat - f.dlat * (j as real), f.p0.lng + f.dlng * (i as real))
  {
    ScaleLe(f.dlat, 0.0, j as real);
    ScaleLe(f.dlat, j as real, (f.fny - 1) as real);
    ScaleLe(f.dlng, 0.0, i as real);
    ScaleLe(f.dlng, i as real, (f.fnx - 1) as real);
  }

  /** At a grid point the blend runs with fractions 0 from that point's cell. */
  lemma GridPointBlend(f: Field, buf: seq<real>, i: int, j: int)
    requires f.dlat > 0.0 && f.dlng > 0.0
    requires f.bounds.Contains(f.p0.lat - f.dlat * (j as real), f.p0.lng + f.dlng * (i as real))
    ensures ValueIn(f, buf, LatLng(f.p0.lat - f.dlat * (j as real), f.p0.lng + f.dlng * (i as real)))
            == BlendSample(0.0, 0.0, Read(buf, f.fnx, i, j), Read(buf, f.fnx, i + 1, j),
                           Read(buf, f.fnx, i, j + 1), Read(buf, f.fnx, i + 1, j + 1))
  {
    var ll := LatLng(f.p0.lat - f.dlat * (j as real), f.p0.lng + f.dlng * (i as real));
    EastOnGrid(f.p0.lng, f.dlng, i, ll.lng);
    SouthOnGrid(f.p0.lat, f.dlat, j, ll.lat);
    ValueInUnfold(f, buf, ll, i, j, 0.0, 0.0);
  }

  /** At a grid point whose cell has a full neighbourhood, the field returns
      the stored value x(i, j) exactly (ReadCell: buf[fnx * j + i]); at
      i = j = 0 this is the value at p0. */
  lemma GridPointExact(f: Field, buf: seq<real>, i: int, j: int)
    requires f.Shaped() && |buf| == f.fnx * f.fny
    requires 0 <= i < f.fnx - 1 && 0 <= j < f.fny - 1
    ensures var s := ValueIn(f, buf, LatLng(f.p0.lat - f.dlat * (j as real), f.p0.lng + f.dlng * (i as real)));
      s.Num? && s == Read(buf, f.fnx, i, j)
  {
    GridPointInside(f, i, j);
    GridPointBlend(f, buf, i, j);
    NeighboursInside(buf, f.fnx, f.fny, i, j);
    BlendCorners(Read(buf, f.fnx, i, j).value, Read(buf, f.fnx, i + 1, j).value,
                 Read(buf, f.fnx, i, j + 1).value, Read(buf, f.fnx, i + 1, j + 1).value);
  }

  /** At a grid point of the last column the east reads wrap to the start of
      the next row, but carry weight 0: the field still returns x(i, j),
      except on the last row but one, where the south-east read falls just
      past the buffer and the result is NaN. */
  lemma GridPointLastColumn(f: Field, buf: seq<real>, i: int, j: int)
    requires f.Shaped() && |buf| == f.fnx * f.fny
    requires i == f.fnx - 1 && 0 <= j < f.fny - 1
    ensures var s := ValueIn(f, buf, LatLng(f.p0.lat - f.dlat * (j as real), f.p0.lng + f.dlng * (i as real)));
      if j < f.fny - 2 then s.Num? && s == Read(buf, f.fnx, i, j) else s == NaN
  {
    var ll := LatLng(f.p0.lat - f.dlat * (j as real), f.p0.lng + f.dlng * (i as real));
    GridPointInside(f, i, j);
    GridPointBlend(f, buf, i, j);
    LastColumnReads(buf, f.fnx, f.fny, i, j);
    var r00, r10 := Read(buf, f.fnx, i, j), Read(buf, f.fnx, i + 1, j);
    var r01, r11 := Read(buf, f.fnx, i, j + 1), Read(buf, f.fnx, i + 1, j + 1);
    var s := ValueIn(f, buf, ll);
    assert s == BlendSample(0.0, 0.0, r00, r10, r01, r11);
    if j < f.fny - 2 {
      BlendAtCorner(r00, r10, r01, r11);
      assert s == r00;
    } else {
      assert !r11.Num?;
      assert s == NaN;
    }
  }

  /** With offsets 0 and four numbers, the blend is the north-west value. */
  lemma BlendAtCorner(s00: Sample, s10: Sample, s01: Sample, s11: Sample)
    requires s00.Num? && s10.Num? && s01.Num? && s11.Num?
    ensures BlendSample(0.0, 0.0, s00, s10, s01, s11) == s00
  {
    BlendCorners(s00.value, s10.value, s01.value, s11.value);
  }

  /** The four reads around cell (i, j) of the last column: the east ones are
      the first cells of the next two rows, and only the south-east one can
      fall past the buffer, exactly on the last row but one. */
  lemma LastColumnReads(buf: seq<real>, fnx: int, fny: int, i: int, j: int)
    requires fnx >= 1 && |buf| == fnx * fny && i == fnx - 1 && 0 <= j < fny - 1
    ensures Read(buf, fnx, i, j).Num? && Read(buf, fnx, i + 1, j).Num?
    ensures Read(buf, fnx, i, j + 1).Num?
    ensures Read(buf, fnx, i + 1, j + 1).Num? <==> j < fny - 2
  {
    RowBound(fnx, fny, j);
    RowBound(fnx, fny, j + 1);
    assert fnx * (j + 1) == fnx * j + fnx;
    assert fnx * (j + 2) == fnx * (j + 1) + fnx;
    if j < fny - 2 {
      RowBound(fnx, fny, j + 2);
    } else {
      assert fnx * (j + 2) == fnx * fny;
    }
  }

  /** Along the south edge of the field bounds every read is NaN: the row
      below the last one lies past the end of the buffer. */
  lemma SouthEdgeIsNaN(f: Field, buf: seq<real>, lng: real)
    requires f.Shaped() && |buf| == f.fnx * f.fny
    requires f.bounds.west <= lng <= f.bounds.east
    ensures ValueIn(f, buf, LatLng(f.bounds.south, lng)) == NaN
  {
    var x := EastIndex(f.p0.lng, lng, f.dlng);
    DivMonotone(0.0, lng - f.p0.lng, f.dlng);
    assert 0.0 / f.dlng == 0.0;
    assert x >= 0;
    var south := f.bounds.south;
    assert south == f.p0.lat - f.dlat * ((f.fny - 1) as real);
    SouthOnGrid(f.p0.lat, f.dlat, f.fny - 1, south);
    assert SouthIndex(f.p0.lat, south, f.dlat) == f.fny - 1;
    assert f.fnx * (f.fny - 1 + 1) + x >= |buf|;
    assert Read(buf, f.fnx, x, f.fny) == NaN;
  }

  /** Strictly north of the south edge and west of the east edge, all four
      neighbours exist and the field returns a number. */
  lemma InteriorIsNumber(f: Field, buf: seq<real>, ll: LatLng)
    requires f.Shaped() && |buf| == f.fnx * f.fny
    requires f.bounds.south < ll.lat <= f.bounds.north && f.bounds.west <= ll.lng < f.bounds.east
    ensures ValueIn(f, buf, ll).Num?
  {
    var x := EastIndex(f.p0.lng, ll.lng, f.dlng);
    var y := SouthIndex(f.p0.lat, ll.lat, f.dlat);
    CellBeforeLast(f.dlng, f.fnx, ll.lng - f.p0.lng, x);
    CellBeforeLast(f.dlat, f.fny, f.p0.lat - ll.lat, y);
    NeighboursInside(buf, f.fnx, f.fny, x, y);
  }

  /** One axis of InteriorIsNumber: an offset in [0, d * (m - 1)) lies in
      a cell k with k + 1 still on the axis. */
  lemma CellBeforeLast(d: real, m: int, off: real, k: int)
    requires d > 0.0 && m >= 1 && 0.0 <= off < d * ((m - 1) as real) && k == (off / d).Floor
    ensures 0 <= k < m - 1
  {
    DivMonotone(0.0, off, d);
    assert 0.0 / d == 0.0;
    DivStrict(off, d * ((m - 1) as real), d);
    DivCancel(d, (m - 1) as real);
    FloorFraction(off / d);
    assert (k as real) < ((m - 1) as real);
  }
}
