/** _createField's copy of tile rows into one flat field buffer. One axis at
    a time the copy is index arithmetic on the corner tiles t1, t2 and
    pixels pix1, pix2 (n pixels per tile); in two dimensions it is a list of
    row copies ("pieces") applied in loop order to a zeroed buffer. */
module Stitch {
  import opened Grid
  import opened Tiles

  // ---------------------------------------------------------------------
  // One axis: which pixels of tile t are copied, and where they land.

  /** ix1 / iy1: the first copied pixel of tile t. */
  function ClipFrom(t: int, t1: int, pix1: int): int
  {
    if t == t1 then pix1 else 0
  }

  /** ix2 / iy2: the last copied pixel of tile t. */
  function ClipTo(t: int, t2: int, pix2: int, n: int): int
  {
    if t == t2 then pix2 else n - 1
  }

  /** ifx / ify: the field column (row) the first copied pixel of tile t
      lands on; every tile after the first advances by n - 1. */
  function DestStart(t: int, t1: int, pix1: int, n: int): int
  {
    if t == t1 then 0 else (t - t1) * (n - 1) - pix1 + 1
  }

  /** The field column (row) the last copied pixel of tile t lands on. */
  function DestEnd(t: int, t1: int, pix1: int, t2: int, pix2: int, n: int): int
  {
    DestStart(t, t1, pix1, n) + ClipTo(t, t2, pix2, n) - ClipFrom(t, t1, pix1)
  }

  /** fnx / fny: the field size on this axis, advancing n per tile. */
  function Span(t1: int, pix1: int, t2: int, pix2: int, n: int): int
  {
    (t2 - t1) * n - pix1 + pix2 + 1
  }

  /** The corners of one axis: pixels inside their tiles, and the first
      corner's cell not after the second's (an earlier tile, or the same
      tile and a pixel not after it). */
  predicate AxisOk(t1: int, pix1: int, t2: int, pix2: int, n: int)
  {
    n >= 2 && 0 <= pix1 < n && 0 <= pix2 < n && (t1 < t2 || (t1 == t2 && pix1 <= pix2))
  }

  /** Global cells t * n + pix in order put the corners in order. */
  lemma {:induction false} TilesOrdered(t1: int, pix1: int, t2: int, pix2: int, n: int)
    requires n >= 2 && 0 <= pix1 < n && 0 <= pix2 < n && t1 * n + pix1 <= t2 * n + pix2
    ensures AxisOk(t1, pix1, t2, pix2, n)
  {
    if t2 < t1 {
      MulMonotone(t2 + 1, t1, n);
    }
  }

  /** Every tile between the corners copies a non-empty pixel range that
      lands inside [0, Span): each row copy stays inside the field. */
  lemma {:induction false} AxisFits(t1: int, pix1: int, t2: int, pix2: int, n: int, t: int)
    requires AxisOk(t1, pix1, t2, pix2, n) && t1 <= t <= t2
    ensures 0 <= ClipFrom(t, t1, pix1) <= ClipTo(t, t2, pix2, n) < n
    ensures 0 <= DestStart(t, t1, pix1, n)
    ensures DestEnd(t, t1, pix1, t2, pix2, n) < Span(t1, pix1, t2, pix2, n)
  {
    if t != t1 {
      LaterTileFits(t - t1, t2 - t1, n, pix1, pix2, t == t2);
    } else if t != t2 {
      MulMonotone(1, t2 - t1, n);
    }
  }

  /** AxisFits for the k-th tile after the first, of K. */
  lemma LaterTileFits(k: int, K: int, n: int, pix1: int, pix2: int, last: bool)
    requires 1 <= k <= K && n >= 2 && 0 <= pix1 < n && 0 <= pix2 < n
    requires last <==> k == K
    ensures 0 <= k * (n - 1) - pix1 + 1
    ensures k * (n - 1) - pix1 + 1 + (if last then pix2 else n - 1) < K * n - pix1 + pix2 + 1
  {
    MulPred(k, n);
    MulMonotone(1, k, n - 1);
    if !last {
      MulMonotone(k + 1, K, n);
      MulSucc(k, n);
    }
  }

  lemma MulPred(k: int, n: int)
    ensures k * (n - 1) == k * n - k
  {
  }

  lemma MulSucc(k: int, n: int)
    ensures (k + 1) * n == k * n + n
  {
  }

  /** The copy rule on one axis: pixel p of tile t lands on field index
      DestStart + (p - ClipFrom), and that field index c stands for global
      cell t1*n + pix1 + c, shifted by t - t1 - 1 cells for every tile after
      the second. With at most two tiles the shift is zero. */
  lemma {:induction false} AxisLag(t1: int, pix1: int, t2: int, pix2: int, n: int, t: int, p: int)
    requires AxisOk(t1, pix1, t2, pix2, n) && t1 <= t <= t2
    requires ClipFrom(t, t1, pix1) <= p <= ClipTo(t, t2, pix2, n)
    ensures var c := DestStart(t, t1, pix1, n) + p - ClipFrom(t, t1, pix1);
      t * n + p == t1 * n + pix1 + c + (if t == t1 then 0 else t - t1 - 1)
  {
    if t != t1 {
      assert (t - t1) * (n - 1) == t * n - t1 * n - (t - t1);
    }
  }

  /** Consecutive tiles: the first two tiles abut, every later pair shares
      one field index (the later tile's first pixel overwrites the earlier
      tile's last), and the last tile stops t2 - t1 - 1 indices short of the
      end of the field. */
  lemma {:induction false} AxisJoins(t1: int, pix1: int, t2: int, pix2: int, n: int, t: int)
    requires AxisOk(t1, pix1, t2, pix2, n) && t1 <= t < t2
    ensures t == t1 ==> DestStart(t + 1, t1, pix1, n) == DestEnd(t, t1, pix1, t2, pix2, n) + 1
    ensures t > t1 ==> DestStart(t + 1, t1, pix1, n) == DestEnd(t, t1, pix1, t2, pix2, n)
    ensures DestEnd(t2, t1, pix1, t2, pix2, n) == Span(t1, pix1, t2, pix2, n) - 1 - (t2 - t1 - 1)
  {
    assert (t + 1 - t1) * (n - 1) == (t - t1) * (n - 1) + n - 1;
    assert (t2 - t1) * (n - 1) == (t2 - t1) * n - (t2 - t1);
  }

  /** With at most two tiles on the axis the field indices [0, Span) are
      covered without gap or overlap: an index up to the first tile's end
      belongs to the first tile, every other index to the second. */
  lemma {:induction false} AxisTwoTilesPartition(t1: int, pix1: int, t2: int, pix2: int, n: int)
    requires AxisOk(t1, pix1, t2, pix2, n) && t2 <= t1 + 1
    ensures DestStart(t1, t1, pix1, n) == 0
    ensures DestEnd(t2, t1, pix1, t2, pix2, n) == Span(t1, pix1, t2, pix2, n) - 1
    ensures t2 == t1 + 1 ==> DestStart(t2, t1, pix1, n) == DestEnd(t1, t1, pix1, t2, pix2, n) + 1
  {
    if t1 < t2 {
      AxisJoins(t1, pix1, t2, pix2, n, t1);
    }
  }

  /** Tiles after the first end no earlier on the field than the tiles
      before them. */
  lemma {:induction false} DestEndMonotone(t1: int, pix1: int, t2: int, pix2: int, n: int, t: int)
    requires AxisOk(t1, pix1, t2, pix2, n) && t1 <= t <= t2
    ensures DestEnd(t, t1, pix1, t2, pix2, n) <= DestEnd(t2, t1, pix1, t2, pix2, n)
    decreases t2 - t
  {
    if t < t2 {
      AxisJoins(t1, pix1, t2, pix2, n, t);
      AxisFits(t1, pix1, t2, pix2, n, t + 1);
      DestEndMonotone(t1, pix1, t2, pix2, n, t + 1);
    }
  }

  lemma SpanPositive(t1: int, pix1: int, t2: int, pix2: int, n: int)
    requires AxisOk(t1, pix1, t2, pix2, n)
    ensures Span(t1, pix1, t2, pix2, n) == t2 * n + pix2 - (t1 * n + pix1) + 1 >= 1
  {
    MulMonotone(t1, t2, n);
    assert t2 * n - t1 * n == (t2 - t1) * n;
    if t1 < t2 {
      MulMonotone(t1 + 1, t2, n);
      MulSucc(t1, n);
    }
  }

  // ---------------------------------------------------------------------
  // Two dimensions: the row copies.

  /** What _createField stitches: the clamped north-west corner p1 and
      south-east corner p2, the tile size tnx x tny and the tile zoom z. */
  datatype Frame = Frame(p1: FieldPoint, p2: FieldPoint, tnx: int, tny: int, z: nat)
  {
    /** The first corner's tiles are not negative and not after the last
        corner's. */
    predicate Placed()
    {
      0 <= p1.tx <= p2.tx && 0 <= p1.ty <= p2.ty
    }

    predicate Ok()
    {
      0 <= p1.tx && 0 <= p1.ty &&
      AxisOk(p1.tx, p1.x, p2.tx, p2.x, tnx) && AxisOk(p1.ty, p1.y, p2.ty, p2.y, tny)
    }

    /** fnx */
    function Width(): int { Span(p1.tx, p1.x, p2.tx, p2.x, tnx) }

    /** fny */
    function Height(): int { Span(p1.ty, p1.y, p2.ty, p2.y, tny) }

    function ColFrom(tx: int): int { ClipFrom(tx, p1.tx, p1.x) }
    function ColTo(tx: int): int { ClipTo(tx, p2.tx, p2.x, tnx) }
    function ColAt(tx: int): int { DestStart(tx, p1.tx, p1.x, tnx) }
    function ColEnd(tx: int): int { DestEnd(tx, p1.tx, p1.x, p2.tx, p2.x, tnx) }
    function RowFrom(ty: int): int { ClipFrom(ty, p1.ty, p1.y) }
    function RowTo(ty: int): int { ClipTo(ty, p2.ty, p2.y, tny) }
    function RowAt(ty: int): int { DestStart(ty, p1.ty, p1.y, tny) }
  }

  /** Corners as the layer computes them form a frame of the field's size. */
  lemma FrameOfCorners(p1: FieldPoint, p2: FieldPoint, tnx: int, tny: int, nz: int, z: nat)
    requires CornersOk(p1, p2, tnx, tny, nz)
    ensures Frame(p1, p2, tnx, tny, z).Ok()
    ensures Frame(p1, p2, tnx, tny, z).Width() == FieldWidth(p1, p2, tnx)
    ensures Frame(p1, p2, tnx, tny, z).Height() == FieldHeight(p1, p2, tny)
  {
    TilesOrdered(p1.tx, p1.x, p2.tx, p2.x, tnx);
    TilesOrdered(p1.ty, p1.y, p2.ty, p2.y, tny);
  }

  /** One `set` of the copy loop: row iy of tile (tx, ty), from index src of
      the tile's data, len values, to index at of the field. */
  datatype Piece = Piece(tx: nat, ty: nat, iy: int, src: int, at: int, len: int)

  /** The loop body's arithmetic for row iy of tile (tx, ty): the subarray
      starts at offset + ix1 with offset = tnx * iy and holds ix2 - ix1 + 1
      values; it is set at offset_f = ifx + fnx * (ify + iy - iy1). */
  function RowPiece(f: Frame, tx: nat, ty: nat, iy: int): Piece
  {
    Piece(tx, ty, iy,
          f.tnx * iy + f.ColFrom(tx),
          f.ColAt(tx) + f.Width() * (f.RowAt(ty) + iy - f.RowFrom(ty)),
          f.ColTo(tx) - f.ColFrom(tx) + 1)
  }

  /** The copy of row iy of tile (tx, ty) reads from row iy, column ColFrom(tx)
      of the tile, and writes to column ColAt(tx) of field row
      RowAt(ty) + iy - RowFrom(ty). */
  lemma RowPieceCells(f: Frame, tx: nat, ty: nat, iy: int)
    ensures var p := RowPiece(f, tx, ty, iy);
      0 <= f.ColFrom(tx) < f.tnx ==> p.src / f.tnx == iy && p.src % f.tnx == f.ColFrom(tx)
    ensures var p := RowPiece(f, tx, ty, iy);
      0 <= f.ColAt(tx) < f.Width() ==>
        p.at / f.Width() == f.RowAt(ty) + iy - f.RowFrom(ty) && p.at % f.Width() == f.ColAt(tx)
  {
    var p := RowPiece(f, tx, ty, iy);
    RowAndColumn(p.src, iy, f.ColFrom(tx), f.tnx);
    RowAndColumn(p.at, f.RowAt(ty) + iy - f.RowFrom(ty), f.ColAt(tx), f.Width());
  }

  /** Index g = n * t + p of a row-major buffer of width n is row t, column p. */
  lemma RowAndColumn(g: int, t: int, p: int, n: int)
    requires g == n * t + p
    ensures 0 <= p < n ==> g / n == t && g % n == p
  {
    if 0 <= p < n {
      DivModOf(g, t, p, n);
    }
  }

  /** p is the copy of row p.iy of a tile between the corners. */
  predicate InFrame(f: Frame, p: Piece)
  {
    f.p1.tx <= p.tx <= f.p2.tx && f.p1.ty <= p.ty <= f.p2.ty &&
    f.RowFrom(p.ty) <= p.iy <= f.RowTo(p.ty) &&
    p == RowPiece(f, p.tx, p.ty, p.iy)
  }

  /** The copies of rows RowFrom(ty) .. k-1 of tile (tx, ty), in order. */
  function RowsOf(f: Frame, tx: nat, ty: nat, k: int): seq<Piece>
    decreases k - f.RowFrom(ty)
  {
    if k <= f.RowFrom(ty) then [] else RowsOf(f, tx, ty, k - 1) + [RowPiece(f, tx, ty, k - 1)]
  }

  /** The copies of tiles p1.tx .. k-1 of tile row ty, in order. */
  function TilesOf(f: Frame, ty: nat, k: int): seq<Piece>
    requires 0 <= f.p1.tx
    decreases k - f.p1.tx
  {
    if k <= f.p1.tx then [] else TilesOf(f, ty, k - 1) + RowsOf(f, k - 1, ty, f.RowTo(ty) + 1)
  }

  /** The copies of tile rows p1.ty .. k-1, in order. */
  function BandsOf(f: Frame, k: int): seq<Piece>
    requires 0 <= f.p1.tx && 0 <= f.p1.ty
    decreases k - f.p1.ty
  {
    if k <= f.p1.ty then [] else BandsOf(f, k - 1) + TilesOf(f, k - 1, f.p2.tx + 1)
  }

  /** Every copy _createField makes, in the order of its loops: tile rows
      outermost, then tiles, then pixel rows. */
  function Pieces(f: Frame): seq<Piece>
    requires f.Ok()
  {
    BandsOf(f, f.p2.ty + 1)
  }

  lemma {:induction false} RowsInFrame(f: Frame, tx: nat, ty: nat, k: int)
    requires f.p1.tx <= tx <= f.p2.tx && f.p1.ty <= ty <= f.p2.ty && k <= f.RowTo(ty) + 1
    ensures forall p :: p in RowsOf(f, tx, ty, k) ==> InFrame(f, p)
    decreases k - f.RowFrom(ty)
  {
    if k > f.RowFrom(ty) {
      RowsInFrame(f, tx, ty, k - 1);
    }
  }

  lemma {:induction false} TilesInFrame(f: Frame, ty: nat, k: int)
    requires 0 <= f.p1.tx && f.p1.ty <= ty <= f.p2.ty && k <= f.p2.tx + 1
    ensures forall p :: p in TilesOf(f, ty, k) ==> InFrame(f, p)
    decreases k - f.p1.tx
  {
    if k > f.p1.tx {
      TilesInFrame(f, ty, k - 1);
      RowsInFrame(f, k - 1, ty, f.RowTo(ty) + 1);
      AllInFrameAppend(f, TilesOf(f, ty, k - 1), RowsOf(f, k - 1, ty, f.RowTo(ty) + 1));
    }
  }

  lemma {:induction false} BandsInFrame(f: Frame, k: int)
    requires 0 <= f.p1.tx && 0 <= f.p1.ty && k <= f.p2.ty + 1
    ensures forall p :: p in BandsOf(f, k) ==> InFrame(f, p)
    decreases k - f.p1.ty
  {
    if k > f.p1.ty {
      BandsInFrame(f, k - 1);
      TilesInFrame(f, k - 1, f.p2.tx + 1);
      AllInFrameAppend(f, BandsOf(f, k - 1), TilesOf(f, k - 1, f.p2.tx + 1));
    }
  }

  lemma AllInFrameAppend(f: Frame, a: seq<Piece>, b: seq<Piece>)
    requires forall p :: p in a ==> InFrame(f, p)
    requires forall p :: p in b ==> InFrame(f, p)
    ensures forall p :: p in a + b ==> InFrame(f, p)
  {
  }

  lemma {:induction false} RowInRows(f: Frame, tx: nat, ty: nat, k: int, iy: int)
    requires f.RowFrom(ty) <= iy < k
    ensures RowPiece(f, tx, ty, iy) in RowsOf(f, tx, ty, k)
    decreases k - f.RowFrom(ty)
  {
    if iy < k - 1 {
      RowInRows(f, tx, ty, k - 1, iy);
    }
  }

  lemma {:induction false} RowInTiles(f: Frame, ty: nat, k: int, tx: nat, iy: int)
    requires 0 <= f.p1.tx <= tx < k && f.RowFrom(ty) <= iy <= f.RowTo(ty)
    ensures RowPiece(f, tx, ty, iy) in TilesOf(f, ty, k)
    decreases k - f.p1.tx
  {
    if tx < k - 1 {
      RowInTiles(f, ty, k - 1, tx, iy);
    } else {
      RowInRows(f, tx, ty, f.RowTo(ty) + 1, iy);
    }
  }

  lemma {:induction false} RowInBands(f: Frame, k: int, tx: nat, ty: nat, iy: int)
    requires 0 <= f.p1.tx <= tx <= f.p2.tx && 0 <= f.p1.ty <= ty < k
    requires f.RowFrom(ty) <= iy <= f.RowTo(ty)
    ensures RowPiece(f, tx, ty, iy) in BandsOf(f, k)
    decreases k - f.p1.ty
  {
    var p := RowPiece(f, tx, ty, iy);
    assert BandsOf(f, k) == BandsOf(f, k - 1) + TilesOf(f, k - 1, f.p2.tx + 1);
    if ty < k - 1 {
      RowInBands(f, k - 1, tx, ty, iy);
      assert p in BandsOf(f, k - 1);
    } else {
      RowInTiles(f, ty, f.p2.tx + 1, tx, iy);
      assert p in TilesOf(f, k - 1, f.p2.tx + 1);
    }
  }

  /** Each copy is a row of a tile between the corners ... */
  lemma PiecesInFrame(f: Frame)
    requires f.Ok()
    ensures forall p :: p in Pieces(f) ==> InFrame(f, p)
  {
    BandsInFrame(f, f.p2.ty + 1);
  }

  /** ... and each such row is copied. */
  lemma FrameRowCopied(f: Frame, tx: nat, ty: nat, iy: int)
    requires f.Ok()
    requires f.p1.tx <= tx <= f.p2.tx && f.p1.ty <= ty <= f.p2.ty
    requires f.RowFrom(ty) <= iy <= f.RowTo(ty)
    ensures RowPiece(f, tx, ty, iy) in Pieces(f)
  {
    RowInBands(f, f.p2.ty + 1, tx, ty, iy);
  }

  /** The field row a copy writes. */
  function PieceRow(f: Frame, p: Piece): int
  {
    f.RowAt(p.ty) + p.iy - f.RowFrom(p.ty)
  }

  /** A copy writes a non-empty run of columns inside the field's width ... */
  lemma PieceColumns(f: Frame, p: Piece)
    requires f.Ok() && InFrame(f, p)
    ensures 1 <= p.len && 0 <= f.ColAt(p.tx) && f.ColEnd(p.tx) == f.ColAt(p.tx) + p.len - 1 < f.Width()
    ensures 0 <= f.ColFrom(p.tx) && f.ColFrom(p.tx) + p.len <= f.tnx
  {
    AxisFits(f.p1.tx, f.p1.x, f.p2.tx, f.p2.x, f.tnx, p.tx);
  }

  /** ... of one of the field's rows ... */
  lemma PieceRowInField(f: Frame, p: Piece)
    requires f.Ok() && InFrame(f, p)
    ensures 0 <= PieceRow(f, p) < f.Height() && 0 <= p.iy < f.tny
  {
    AxisFits(f.p1.ty, f.p1.y, f.p2.ty, f.p2.y, f.tny, p.ty);
  }

  /** ... and reads a run inside its tile ... */
  lemma PieceSourceIn(f: Frame, p: Piece)
    requires f.Ok() && InFrame(f, p)
    ensures 0 <= p.len && 0 <= p.src && p.src + p.len <= f.tnx * f.tny
  {
    PieceColumns(f, p);
    PieceRowInField(f, p);
    SourceInTile(f.tnx, f.tny, p.iy, f.ColFrom(p.tx), p.len);
  }

  /** ... so it writes inside the field buffer. */
  lemma PieceDestIn(f: Frame, p: Piece)
    requires f.Ok() && InFrame(f, p)
    ensures 0 <= p.at && p.at + p.len <= FieldSize(f)
  {
    PieceColumns(f, p);
    PieceRowInField(f, p);
    SourceInTile(f.Width(), f.Height(), PieceRow(f, p), f.ColAt(p.tx), p.len);
  }

  /** A run of len values from column a of row iy of a w x h raster ends
      inside the raster. */
  lemma SourceInTile(w: int, h: int, iy: int, a: int, len: int)
    requires 0 <= iy < h && 0 <= a && 1 <= len && a + len <= w
    ensures 0 <= w * iy + a && w * iy + a + len <= w * h
  {
    MulMonotone(0, iy, w);
    MulMonotone(iy + 1, h, w);
  }

  /** Index W*rho + a .. W*rho + a + len - 1 of a raster W wide is a run inside
      row rho: it holds W*r + c exactly when the run's row is r and c is in
      the run's columns. */
  lemma IndexInRow(W: int, rho: int, a: int, len: int, r: int, c: int)
    requires 0 <= a && 1 <= len && a + len <= W && 0 <= c < W
    ensures (W * rho + a <= W * r + c < W * rho + a + len) <==> (rho == r && a <= c < a + len)
  {
    if rho < r {
      MulMonotone(rho + 1, r, W);
    } else if rho > r {
      MulMonotone(r + 1, rho, W);
    }
  }

  // ---------------------------------------------------------------------
  // Applying the copies to a buffer.

  /** The key of the tile a copy reads, for element e at zoom z. */
  function DataKey(p: Piece, z: nat, e: string): string
  {
    Key(Coords(p.tx, p.ty, z, e))
  }

  /** The copy's tile is cached and holds the range it reads. */
  predicate Reads(p: Piece, tiles: map<string, Tile>, z: nat, e: string)
  {
    DataKey(p, z, e) in tiles && 0 <= p.src && 0 <= p.len &&
    p.src + p.len <= |tiles[DataKey(p, z, e)].data|
  }

  /** The copy reads inside its tile and writes inside a buffer of size
      values: neither subarray nor set can fail. */
  predicate Fits(p: Piece, size: int, tiles: map<string, Tile>, z: nat, e: string)
  {
    Reads(p, tiles, z, e) && 0 <= p.at && p.at + p.len <= size
  }

  /** subarray(src, src + len) of the copy's tile. */
  function Source(p: Piece, tiles: map<string, Tile>, z: nat, e: string): (s: seq<real>)
    requires Reads(p, tiles, z, e)
    ensures |s| == p.len
  {
    tiles[DataKey(p, z, e)].data[p.src..p.src + p.len]
  }

  /** TypedArray.prototype.set: src written over buf from index at. */
  function Paste(buf: seq<real>, src: seq<real>, at: int): (r: seq<real>)
    requires 0 <= at && at + |src| <= |buf|
    ensures |r| == |buf|
    ensures forall m :: 0 <= m < |buf| ==> r[m] == if at <= m < at + |src| then src[m - at] else buf[m]
  {
    buf[..at] + src + buf[at + |src|..]
  }

  /** Every copy of ps fits a buffer of size values. */
  predicate AllFit(ps: seq<Piece>, size: int, tiles: map<string, Tile>, z: nat, e: string)
  {
    forall i :: 0 <= i < |ps| ==> Fits(ps[i], size, tiles, z, e)
  }

  /** The buffer after the copies ps, in order, starting from buf. A copy
      that does not fit is passed over; PiecesFit shows that none of
      _createField's copies is such a copy. */
  function Apply(buf: seq<real>, ps: seq<Piece>, tiles: map<string, Tile>, z: nat, e: string): (r: seq<real>)
    ensures |r| == |buf|
    decreases |ps|
  {
    if ps == [] then buf
    else
      var last := ps[|ps| - 1];
      var prev := Apply(buf, ps[..|ps| - 1], tiles, z, e);
      if Fits(last, |buf|, tiles, z, e) then Paste(prev, Source(last, tiles, z, e), last.at) else prev
  }

  predicate Covers(p: Piece, n: int)
  {
    p.at <= n < p.at + p.len
  }

  /** The value a copy writes at buffer index n. */
  function ValueAt(p: Piece, n: int, tiles: map<string, Tile>, z: nat, e: string): real
    requires Reads(p, tiles, z, e) && Covers(p, n)
  {
    tiles[DataKey(p, z, e)].data[p.src + n - p.at]
  }

  /** An index no copy covers keeps its value. */
  lemma {:induction false} ApplyUntouched(buf: seq<real>, ps: seq<Piece>, tiles: map<string, Tile>, z: nat, e: string, n: int)
    requires AllFit(ps, |buf|, tiles, z, e)
    requires 0 <= n < |buf|
    requires forall i :: 0 <= i < |ps| ==> !Covers(ps[i], n)
    ensures Apply(buf, ps, tiles, z, e)[n] == buf[n]
    decreases |ps|
  {
    if ps != [] {
      var init := ps[..|ps| - 1];
      assert forall i :: 0 <= i < |init| ==> init[i] == ps[i];
      ApplyUntouched(buf, init, tiles, z, e, n);
      assert Fits(ps[|ps| - 1], |buf|, tiles, z, e);
    }
  }

  /** An index some copy covers holds v when every copy covering it writes
      v there. */
  lemma {:induction false} ApplyAgree(buf: seq<real>, ps: seq<Piece>, tiles: map<string, Tile>, z: nat, e: string,
                                      n: int, v: real, w: int)
    requires AllFit(ps, |buf|, tiles, z, e)
    requires 0 <= n < |buf|
    requires 0 <= w < |ps| && Covers(ps[w], n)
    requires forall i :: 0 <= i < |ps| && Covers(ps[i], n) ==> ValueAt(ps[i], n, tiles, z, e) == v
    ensures Apply(buf, ps, tiles, z, e)[n] == v
    decreases |ps|
  {
    var last := ps[|ps| - 1];
    assert Fits(last, |buf|, tiles, z, e);
    if !Covers(last, n) {
      var init := ps[..|ps| - 1];
      assert forall i :: 0 <= i < |init| ==> init[i] == ps[i];
      ApplyAgree(buf, init, tiles, z, e, n, v, w);
    }
  }

  // ---------------------------------------------------------------------
  // The stitched field.

  /** Every tile between the corners is cached with a raster of element e
      holding at least tnx * tny values (values past the raster are never
      read). */
  predicate TilesReady(f: Frame, tiles: map<string, Tile>, e: string)
  {
    forall tx: nat, ty: nat :: f.p1.tx <= tx <= f.p2.tx && f.p1.ty <= ty <= f.p2.ty ==>
      Key(Coords(tx, ty, f.z, e)) in tiles &&
      |tiles[Key(Coords(tx, ty, f.z, e))].data| >= f.tnx * f.tny
  }

  /** fnx * fny */
  function FieldSize(f: Frame): (size: nat)
    requires f.Ok()
    ensures size == f.Width() * f.Height() && f.Width() >= 1 && f.Height() >= 1
  {
    SpanPositive(f.p1.tx, f.p1.x, f.p2.tx, f.p2.x, f.tnx);
    SpanPositive(f.p1.ty, f.p1.y, f.p2.ty, f.p2.y, f.tny);
    MulMonotone(0, f.Height(), f.Width());
    f.Width() * f.Height()
  }

  /** No copy of _createField reads past its tile or writes past the field:
      subarray and set never fail once every tile is ready. */
  lemma PieceFits(f: Frame, tiles: map<string, Tile>, e: string, q: Piece)
    requires f.Ok() && TilesReady(f, tiles, e) && InFrame(f, q)
    ensures Fits(q, FieldSize(f), tiles, f.z, e)
  {
    PieceSourceIn(f, q);
    PieceDestIn(f, q);
    assert DataKey(q, f.z, e) == Key(Coords(q.tx, q.ty, f.z, e));
  }

  lemma PiecesFit(f: Frame, tiles: map<string, Tile>, e: string)
    requires f.Ok() && TilesReady(f, tiles, e)
    ensures AllFit(Pieces(f), FieldSize(f), tiles, f.z, e)
  {
    var ps := Pieces(f);
    PiecesInFrame(f);
    forall i | 0 <= i < |ps|
      ensures Fits(ps[i], FieldSize(f), tiles, f.z, e)
    {
      assert ps[i] in ps;
      PieceFits(f, tiles, e, ps[i]);
    }
  }

  /** The field buffer after _createField's loops: a zeroed Float32Array of
      fnx * fny values with every copy applied in loop order. */
  function Stitched(f: Frame, tiles: map<string, Tile>, e: string): (r: seq<real>)
    requires f.Ok() && TilesReady(f, tiles, e)
    ensures |r| == f.Width() * f.Height()
  {
    Apply(seq(FieldSize(f), _ => 0.0), Pieces(f), tiles, f.z, e)
  }

  /** The tile mosaic: the global raster at zoom z in which cell (gx, gy) is
      pixel (gx % tnx, gy % tny) of tile (gx / tnx, gy / tny). */
  predicate MosaicHas(tiles: map<string, Tile>, tnx: int, tny: int, z: nat, e: string, gx: int, gy: int)
  {
    tnx >= 1 && tny >= 1 && gx >= 0 && gy >= 0 &&
    MosaicKey(tnx, tny, z, e, gx, gy) in tiles &&
    0 <= MosaicIndex(tnx, tny, gx, gy) < |tiles[MosaicKey(tnx, tny, z, e, gx, gy)].data|
  }

  /** The key of the tile holding mosaic cell (gx, gy). */
  function MosaicKey(tnx: int, tny: int, z: nat, e: string, gx: int, gy: int): string
    requires tnx >= 1 && tny >= 1 && gx >= 0 && gy >= 0
  {
    Key(Coords(gx / tnx, gy / tny, z, e))
  }

  /** The index of mosaic cell (gx, gy) in its tile's row-major buffer. */
  function MosaicIndex(tnx: int, tny: int, gx: int, gy: int): int
    requires tnx >= 1 && tny >= 1
  {
    tnx * (gy % tny) + gx % tnx
  }

  function MosaicCell(tiles: map<string, Tile>, tnx: int, tny: int, z: nat, e: string, gx: int, gy: int): real
    requires MosaicHas(tiles, tnx, tny, z, e, gx, gy)
  {
    tiles[MosaicKey(tnx, tny, z, e, gx, gy)].data[MosaicIndex(tnx, tny, gx, gy)]
  }

  lemma DivModOf(g: int, t: int, p: int, n: int)
    requires n >= 1 && 0 <= p < n && g == t * n + p
    ensures g / n == t && g % n == p
  {
    var k := g / n - t;
    assert k * n == (g / n) * n - t * n;
    if k >= 1 {
      MulMonotone(1, k, n);
    } else if k <= -1 {
      MulMonotone(k, -1, n);
    }
  }

  /** With at most two tiles on an axis, every field index c is copied from
      some pixel p of some tile t between the corners. */
  lemma AxisLocate(t1: int, pix1: int, t2: int, pix2: int, n: int, c: int) returns (t: int, p: int)
    requires AxisOk(t1, pix1, t2, pix2, n) && t2 <= t1 + 1
    requires 0 <= c < Span(t1, pix1, t2, pix2, n)
    ensures t1 <= t <= t2 && ClipFrom(t, t1, pix1) <= p <= ClipTo(t, t2, pix2, n)
    ensures c == DestStart(t, t1, pix1, n) + p - ClipFrom(t, t1, pix1)
  {
    AxisTwoTilesPartition(t1, pix1, t2, pix2, n);
    AxisFits(t1, pix1, t2, pix2, n, t1);
    AxisFits(t1, pix1, t2, pix2, n, t2);
    if c <= DestEnd(t1, t1, pix1, t2, pix2, n) {
      t, p := t1, pix1 + c;
    } else {
      t := t1 + 1;
      p := c - DestStart(t, t1, pix1, n);
    }
  }

  /** With at most two tiles per axis, a copy covering field cell (c, r)
      reads pixel (px, q.iy) of its tile, and that pixel is the global cell
      c columns east and r rows south of the north-west corner. */
  lemma CoverOffsets(f: Frame, q: Piece, c: int, r: int) returns (px: int)
    requires f.Ok() && f.p2.tx <= f.p1.tx + 1 && f.p2.ty <= f.p1.ty + 1
    requires InFrame(f, q) && 0 <= c < f.Width() && 0 <= r < f.Height()
    requires Covers(q, f.Width() * r + c)
    ensures 0 <= px < f.tnx && 0 <= q.iy < f.tny
    ensures q.src + (f.Width() * r + c) - q.at == f.tnx * q.iy + px
    ensures q.tx * f.tnx + px == GlobalX(f.p1, f.tnx) + c
    ensures q.ty * f.tny + q.iy == GlobalY(f.p1, f.tny) + r
  {
    var W := f.Width();
    PieceColumns(f, q);
    PieceRowInField(f, q);
    AxisFits(f.p1.ty, f.p1.y, f.p2.ty, f.p2.y, f.tny, q.ty);
    IndexInRow(W, PieceRow(f, q), f.ColAt(q.tx), q.len, r, c);
    px := f.ColFrom(q.tx) + c - f.ColAt(q.tx);
    AxisLag(f.p1.tx, f.p1.x, f.p2.tx, f.p2.x, f.tnx, q.tx, px);
    AxisLag(f.p1.ty, f.p1.y, f.p2.ty, f.p2.y, f.tny, q.ty, q.iy);
  }

  /** Pixel (px, py) of tile (tx, ty) is mosaic cell (tx*tnx + px, ty*tny + py). */
  lemma MosaicOfTile(tiles: map<string, Tile>, tnx: int, tny: int, z: nat, e: string,
                     tx: nat, ty: nat, px: int, py: int, gx: int, gy: int)
    requires tnx >= 1 && tny >= 1 && 0 <= px < tnx && 0 <= py < tny
    requires gx == tx * tnx + px && gy == ty * tny + py
    requires Key(Coords(tx, ty, z, e)) in tiles && |tiles[Key(Coords(tx, ty, z, e))].data| >= tnx * tny
    ensures MosaicHas(tiles, tnx, tny, z, e, gx, gy)
    ensures 0 <= tnx * py + px < tnx * tny &&
            MosaicCell(tiles, tnx, tny, z, e, gx, gy) == tiles[Key(Coords(tx, ty, z, e))].data[tnx * py + px]
  {
    DivModOf(gx, tx, px, tnx);
    DivModOf(gy, ty, py, tny);
    SourceInTile(tnx, tny, py, px, 1);
  }

  /** ... so it writes there the mosaic cell at that offset. */
  lemma CoverReadsMosaic(f: Frame, tiles: map<string, Tile>, e: string, q: Piece, c: int, r: int)
    requires f.Ok() && TilesReady(f, tiles, e)
    requires f.p2.tx <= f.p1.tx + 1 && f.p2.ty <= f.p1.ty + 1
    requires InFrame(f, q) && 0 <= c < f.Width() && 0 <= r < f.Height()
    requires Covers(q, f.Width() * r + c)
    ensures Reads(q, tiles, f.z, e)
    ensures MosaicHas(tiles, f.tnx, f.tny, f.z, e, GlobalX(f.p1, f.tnx) + c, GlobalY(f.p1, f.tny) + r)
    ensures ValueAt(q, f.Width() * r + c, tiles, f.z, e) ==
            MosaicCell(tiles, f.tnx, f.tny, f.z, e, GlobalX(f.p1, f.tnx) + c, GlobalY(f.p1, f.tny) + r)
  {
    PieceFits(f, tiles, e, q);
    var px := CoverOffsets(f, q, c, r);
    var k := Key(Coords(q.tx, q.ty, f.z, e));
    assert k in tiles && |tiles[k].data| >= f.tnx * f.tny;
    MosaicOfTile(tiles, f.tnx, f.tny, f.z, e, q.tx, q.ty, px, q.iy,
                 GlobalX(f.p1, f.tnx) + c, GlobalY(f.p1, f.tny) + r);
  }

  /** With at most two tiles per axis some copy covers every field cell. */
  lemma CoveringPiece(f: Frame, c: int, r: int) returns (wi: int)
    requires f.Ok() && f.p2.tx <= f.p1.tx + 1 && f.p2.ty <= f.p1.ty + 1
    requires 0 <= c < f.Width() && 0 <= r < f.Height()
    ensures 0 <= wi < |Pieces(f)| && Covers(Pieces(f)[wi], f.Width() * r + c)
  {
    var tx, px := AxisLocate(f.p1.tx, f.p1.x, f.p2.tx, f.p2.x, f.tnx, c);
    var ty, py := AxisLocate(f.p1.ty, f.p1.y, f.p2.ty, f.p2.y, f.tny, r);
    FrameRowCopied(f, tx, ty, py);
    var w := RowPiece(f, tx, ty, py);
    wi :| 0 <= wi < |Pieces(f)| && Pieces(f)[wi] == w;
    PieceColumns(f, w);
    IndexInRow(f.Width(), PieceRow(f, w), f.ColAt(tx), w.len, r, c);
  }

  /** Stitching at most two tiles per axis is exact: field cell (c, r) holds
      the mosaic cell c columns east and r rows south of the north-west
      corner, for every cell of the field. */
  lemma TwoTilesExact(f: Frame, tiles: map<string, Tile>, e: string, c: int, r: int)
    requires f.Ok() && TilesReady(f, tiles, e)
    requires f.p2.tx <= f.p1.tx + 1 && f.p2.ty <= f.p1.ty + 1
    requires 0 <= c < f.Width() && 0 <= r < f.Height()
    ensures MosaicHas(tiles, f.tnx, f.tny, f.z, e, GlobalX(f.p1, f.tnx) + c, GlobalY(f.p1, f.tny) + r)
    ensures 0 <= f.Width() * r + c < |Stitched(f, tiles, e)| &&
            Stitched(f, tiles, e)[f.Width() * r + c] ==
            MosaicCell(tiles, f.tnx, f.tny, f.z, e, GlobalX(f.p1, f.tnx) + c, GlobalY(f.p1, f.tny) + r)
  {
    var n := f.Width() * r + c;
    var ps := Pieces(f);
    var wi := CoveringPiece(f, c, r);
    PiecesInFrame(f);
    assert ps[wi] in ps;
    CoverReadsMosaic(f, tiles, e, ps[wi], c, r);
    var v := MosaicCell(tiles, f.tnx, f.tny, f.z, e, GlobalX(f.p1, f.tnx) + c, GlobalY(f.p1, f.tny) + r);
    SourceInTile(f.Width(), f.Height(), r, c, 1);
    forall i | 0 <= i < |ps| && Covers(ps[i], n)
      ensures Reads(ps[i], tiles, f.z, e) && ValueAt(ps[i], n, tiles, f.z, e) == v
    {
      assert ps[i] in ps;
      CoverReadsMosaic(f, tiles, e, ps[i], c, r);
    }
    PiecesFit(f, tiles, e);
    ApplyAgree(seq(FieldSize(f), _ => 0.0), ps, tiles, f.z, e, n, v, wi);
  }

  /** Past the second tile on the x axis no copy reaches the field's last
      t2 - t1 - 1 columns. */
  lemma NoCoverPastLastTile(f: Frame, q: Piece, c: int, r: int)
    requires f.Ok() && InFrame(f, q) && f.p2.tx >= f.p1.tx + 2
    requires 0 <= r < f.Height() && f.Width() - (f.p2.tx - f.p1.tx - 1) <= c < f.Width()
    ensures !Covers(q, f.Width() * r + c)
  {
    PieceColumns(f, q);
    DestEndMonotone(f.p1.tx, f.p1.x, f.p2.tx, f.p2.x, f.tnx, q.tx);
    AxisJoins(f.p1.tx, f.p1.x, f.p2.tx, f.p2.x, f.tnx, f.p1.tx);
    IndexInRow(f.Width(), PieceRow(f, q), f.ColAt(q.tx), q.len, r, c);
  }

  /** With three or more tiles across, each tile after the second lands one
      column further west than its cells' offset from the corner, so the
      field's last t2 - t1 - 1 columns keep the zero the buffer was created
      with. */
  lemma LastColumnsUnwritten(f: Frame, tiles: map<string, Tile>, e: string, c: int, r: int)
    requires f.Ok() && TilesReady(f, tiles, e) && f.p2.tx >= f.p1.tx + 2
    requires 0 <= r < f.Height() && f.Width() - (f.p2.tx - f.p1.tx - 1) <= c < f.Width()
    ensures 0 <= f.Width() * r + c < |Stitched(f, tiles, e)| && Stitched(f, tiles, e)[f.Width() * r + c] == 0.0
  {
    var ps := Pieces(f);
    var n := f.Width() * r + c;
    PiecesInFrame(f);
    forall i | 0 <= i < |ps|
      ensures !Covers(ps[i], n)
    {
      assert ps[i] in ps;
      NoCoverPastLastTile(f, ps[i], c, r);
    }
    AxisFits(f.p1.tx, f.p1.x, f.p2.tx, f.p2.x, f.tnx, f.p2.tx);
    SourceInTile(f.Width(), f.Height(), r, c, 1);
    PiecesFit(f, tiles, e);
    ApplyUntouched(seq(FieldSize(f), _ => 0.0), ps, tiles, f.z, e, n);
  }

  /** A view inside one tile gives the window of that tile between the
      corners' pixels. */
  lemma SingleTileWindow(f: Frame, tiles: map<string, Tile>, e: string, c: int, r: int)
    requires f.Ok() && TilesReady(f, tiles, e)
    requires f.p2.tx == f.p1.tx && f.p2.ty == f.p1.ty
    requires 0 <= c < f.Width() && 0 <= r < f.Height()
    ensures 0 <= f.tnx * (f.p1.y + r) + f.p1.x + c < f.tnx * f.tny
    ensures 0 <= f.Width() * r + c < |Stitched(f, tiles, e)| &&
            Stitched(f, tiles, e)[f.Width() * r + c] ==
            tiles[Key(Coords(f.p1.tx, f.p1.ty, f.z, e))].data[f.tnx * (f.p1.y + r) + f.p1.x + c]
  {
    TwoTilesExact(f, tiles, e, c, r);
    var k := Key(Coords(f.p1.tx, f.p1.ty, f.z, e));
    assert k in tiles && |tiles[k].data| >= f.tnx * f.tny;
    MosaicOfTile(tiles, f.tnx, f.tny, f.z, e, f.p1.tx, f.p1.ty, f.p1.x + c, f.p1.y + r,
                 GlobalX(f.p1, f.tnx) + c, GlobalY(f.p1, f.tny) + r);
  }

  // ---------------------------------------------------------------------
  // The copy loops.

  /** The copies made once the loops reach tile row ity, tile itx, pixel
      row iy. */
  function Done(f: Frame, ity: nat, itx: nat, iy: int): seq<Piece>
    requires f.Placed()
  {
    BandsOf(f, ity) + TilesOf(f, ity, itx) + RowsOf(f, itx, ity, iy)
  }

  /** The copies made once the loops reach tile itx of tile row ity. */
  function Before(f: Frame, ity: nat, itx: nat): seq<Piece>
    requires f.Placed()
  {
    BandsOf(f, ity) + TilesOf(f, ity, itx)
  }

  lemma BeforeStartsBand(f: Frame, ity: nat)
    requires f.Placed()
    ensures Before(f, ity, f.p1.tx) == BandsOf(f, ity)
  {
  }

  lemma BeforeNextBand(f: Frame, ity: nat)
    requires f.Placed() && f.p1.ty <= ity
    ensures BandsOf(f, ity + 1) == Before(f, ity, f.p2.tx + 1)
  {
  }

  lemma DoneAtTile(f: Frame, ity: nat, itx: nat)
    requires f.Placed() && f.p1.tx <= itx
    ensures Done(f, ity, itx, f.RowFrom(ity)) == Before(f, ity, itx)
    ensures Done(f, ity, itx, f.RowTo(ity) + 1) == Before(f, ity, itx + 1)
  {
  }

  /** The buffer once the loops reach pixel row iy of tile (itx, ity): a0
      with every earlier copy applied, one row at a time. The position
      after a tile's last row is the one before the next tile's first, and
      the position after a tile row's last tile the one before the next
      tile row's first. A copy that does not fit is passed over, as in
      Apply. */
  ghost function Filled(a0: seq<real>, f: Frame, tiles: map<string, Tile>, e: string,
                        ity: nat, itx: nat, iy: int): (r: seq<real>)
    requires f.Placed()
    ensures |r| == |a0|
    decreases ity - f.p1.ty, itx - f.p1.tx, iy - f.RowFrom(ity)
  {
    if iy > f.RowFrom(ity) then
      var p := RowPiece(f, itx, ity, iy - 1);
      var prev := Filled(a0, f, tiles, e, ity, itx, iy - 1);
      if Fits(p, |a0|, tiles, f.z, e) then Paste(prev, Source(p, tiles, f.z, e), p.at) else prev
    else if itx > f.p1.tx then
      Filled(a0, f, tiles, e, ity, itx - 1, f.RowTo(ity) + 1)
    else if ity > f.p1.ty then
      Filled(a0, f, tiles, e, ity - 1, f.p2.tx, f.RowTo(ity - 1) + 1)
    else
      a0
  }

  /** Filled, at any position of the loops, is Apply over the copies made
      so far. */
  lemma {:induction false} FilledApplied(a0: seq<real>, f: Frame, tiles: map<string, Tile>, e: string,
                                         ity: nat, itx: nat, iy: int)
    requires f.Placed() && f.p1.ty <= ity && f.p1.tx <= itx
    ensures Filled(a0, f, tiles, e, ity, itx, iy) == Apply(a0, Done(f, ity, itx, iy), tiles, f.z, e)
    decreases ity - f.p1.ty, itx - f.p1.tx, if iy > f.RowFrom(ity) then iy - f.RowFrom(ity) else 0, 1
  {
    if iy > f.RowFrom(ity) {
      FilledAppliedRow(a0, f, tiles, e, ity, itx, iy);
    } else if itx > f.p1.tx {
      FilledAppliedTile(a0, f, tiles, e, ity, itx, iy);
    } else if ity > f.p1.ty {
      FilledAppliedBand(a0, f, tiles, e, ity, iy);
    } else {
      DoneAtStart(f, iy);
    }
  }

  lemma {:induction false} FilledAppliedRow(a0: seq<real>, f: Frame, tiles: map<string, Tile>, e: string,
                                            ity: nat, itx: nat, iy: int)
    requires f.Placed() && f.p1.ty <= ity && f.p1.tx <= itx && iy > f.RowFrom(ity)
    ensures Filled(a0, f, tiles, e, ity, itx, iy) == Apply(a0, Done(f, ity, itx, iy), tiles, f.z, e)
    decreases ity - f.p1.ty, itx - f.p1.tx, if iy > f.RowFrom(ity) then iy - f.RowFrom(ity) else 0, 0
  {
    FilledApplied(a0, f, tiles, e, ity, itx, iy - 1);
    FilledNextRow(a0, f, tiles, e, ity, itx, iy - 1);
  }

  lemma {:induction false} FilledAppliedTile(a0: seq<real>, f: Frame, tiles: map<string, Tile>, e: string,
                                             ity: nat, itx: nat, iy: int)
    requires f.Placed() && f.p1.ty <= ity && f.p1.tx < itx && iy <= f.RowFrom(ity)
    ensures Filled(a0, f, tiles, e, ity, itx, iy) == Apply(a0, Done(f, ity, itx, iy), tiles, f.z, e)
    decreases ity - f.p1.ty, itx - f.p1.tx, 0, 0
  {
    FilledApplied(a0, f, tiles, e, ity, itx - 1, f.RowTo(ity) + 1);
    FilledNextTile(a0, f, tiles, e, ity, itx - 1, iy);
  }

  lemma {:induction false} FilledAppliedBand(a0: seq<real>, f: Frame, tiles: map<string, Tile>, e: string,
                                             ity: nat, iy: int)
    requires f.Placed() && f.p1.ty < ity && iy <= f.RowFrom(ity)
    ensures Filled(a0, f, tiles, e, ity, f.p1.tx, iy) == Apply(a0, Done(f, ity, f.p1.tx, iy), tiles, f.z, e)
    decreases ity - f.p1.ty, 0, 0, 0
  {
    FilledApplied(a0, f, tiles, e, ity - 1, f.p2.tx, f.RowTo(ity - 1) + 1);
    FilledNextBand(a0, f, tiles, e, ity - 1, iy);
  }

  /** FilledApplied's step from row iy to row iy + 1 of a tile. */
  lemma FilledNextRow(a0: seq<real>, f: Frame, tiles: map<string, Tile>, e: string, ity: nat, itx: nat, iy: int)
    requires f.Placed() && f.RowFrom(ity) <= iy
    requires Filled(a0, f, tiles, e, ity, itx, iy) == Apply(a0, Done(f, ity, itx, iy), tiles, f.z, e)
    ensures Filled(a0, f, tiles, e, ity, itx, iy + 1) == Apply(a0, Done(f, ity, itx, iy + 1), tiles, f.z, e)
  {
    var p := RowPiece(f, itx, ity, iy);
    DoneSnoc(f, ity, itx, iy);
    ApplyNext(a0, Done(f, ity, itx, iy), p, tiles, f.z, e);
  }

  lemma DoneSnoc(f: Frame, ity: nat, itx: nat, iy: int)
    requires f.Placed() && f.RowFrom(ity) <= iy
    ensures Done(f, ity, itx, iy + 1) == Done(f, ity, itx, iy) + [RowPiece(f, itx, ity, iy)]
  {
  }

  lemma ApplyNext(buf: seq<real>, ps: seq<Piece>, p: Piece, tiles: map<string, Tile>, z: nat, e: string)
    ensures Apply(buf, ps + [p], tiles, z, e) ==
            if Fits(p, |buf|, tiles, z, e) then Paste(Apply(buf, ps, tiles, z, e), Source(p, tiles, z, e), p.at)
            else Apply(buf, ps, tiles, z, e)
  {
    assert (ps + [p])[|ps|] == p;
    assert (ps + [p])[..|ps|] == ps;
  }

  /** FilledApplied's step from the end of tile itx to the start of tile
      itx + 1 (any iy up to its first row stands for that start). */
  lemma FilledNextTile(a0: seq<real>, f: Frame, tiles: map<string, Tile>, e: string, ity: nat, itx: nat, iy: int)
    requires f.Placed() && f.p1.tx <= itx && iy <= f.RowFrom(ity)
    requires Filled(a0, f, tiles, e, ity, itx, f.RowTo(ity) + 1) ==
             Apply(a0, Done(f, ity, itx, f.RowTo(ity) + 1), tiles, f.z, e)
    ensures Filled(a0, f, tiles, e, ity, itx + 1, iy) == Apply(a0, Done(f, ity, itx + 1, iy), tiles, f.z, e)
  {
    DoneAcrossTile(f, ity, itx, iy);
  }

  lemma DoneAcrossTile(f: Frame, ity: nat, itx: nat, iy: int)
    requires f.Placed() && f.p1.tx <= itx && iy <= f.RowFrom(ity)
    ensures Done(f, ity, itx + 1, iy) == Done(f, ity, itx, f.RowTo(ity) + 1)
  {
    DoneAtTile(f, ity, itx);
    assert Done(f, ity, itx + 1, iy) == Before(f, ity, itx + 1);
  }

  /** FilledApplied's step from the end of tile row ity to the start of tile
      row ity + 1. */
  lemma FilledNextBand(a0: seq<real>, f: Frame, tiles: map<string, Tile>, e: string, ity: nat, iy: int)
    requires f.Placed() && f.p1.ty <= ity && iy <= f.RowFrom(ity + 1)
    requires Filled(a0, f, tiles, e, ity, f.p2.tx, f.RowTo(ity) + 1) ==
             Apply(a0, Done(f, ity, f.p2.tx, f.RowTo(ity) + 1), tiles, f.z, e)
    ensures Filled(a0, f, tiles, e, ity + 1, f.p1.tx, iy) == Apply(a0, Done(f, ity + 1, f.p1.tx, iy), tiles, f.z, e)
  {
    DoneAcrossBand(f, ity, iy);
  }

  lemma DoneAcrossBand(f: Frame, ity: nat, iy: int)
    requires f.Placed() && f.p1.ty <= ity && iy <= f.RowFrom(ity + 1)
    ensures Done(f, ity + 1, f.p1.tx, iy) == Done(f, ity, f.p2.tx, f.RowTo(ity) + 1)
  {
    DoneAtTile(f, ity, f.p2.tx);
    BeforeNextBand(f, ity);
    BeforeStartsBand(f, ity + 1);
    assert Done(f, ity + 1, f.p1.tx, iy) == Before(f, ity + 1, f.p1.tx);
  }

  /** Before the first row of the first tile nothing is copied. */
  lemma DoneAtStart(f: Frame, iy: int)
    requires f.Placed() && iy <= f.RowFrom(f.p1.ty)
    ensures Done(f, f.p1.ty, f.p1.tx, iy) == []
  {
    BeforeStartsBand(f, f.p1.ty);
    assert Done(f, f.p1.ty, f.p1.tx, iy) == Before(f, f.p1.ty, f.p1.tx);
  }

  /** Past the last tile row, Filled on a zeroed buffer is the stitched
      field. */
  lemma FilledStitched(f: Frame, tiles: map<string, Tile>, e: string, a0: seq<real>)
    requires f.Ok() && TilesReady(f, tiles, e)
    requires |a0| == FieldSize(f) && forall m :: 0 <= m < |a0| ==> a0[m] == 0.0
    ensures Filled(a0, f, tiles, e, f.p2.ty + 1, f.p1.tx, f.RowFrom(f.p2.ty + 1)) == Stitched(f, tiles, e)
  {
    AxisFits(f.p1.ty, f.p1.y, f.p2.ty, f.p2.y, f.tny, f.p2.ty);
    FilledApplied(a0, f, tiles, e, f.p2.ty, f.p2.tx, f.RowTo(f.p2.ty) + 1);
    DoneAll(f);
    StitchedFromZero(f, tiles, e, a0);
  }

  /** The copies made by the end of the last tile are all of them. */
  lemma DoneAll(f: Frame)
    requires f.Placed()
    ensures Done(f, f.p2.ty, f.p2.tx, f.RowTo(f.p2.ty) + 1) == BandsOf(f, f.p2.ty + 1)
  {
    DoneAtTile(f, f.p2.ty, f.p2.tx);
    BeforeNextBand(f, f.p2.ty);
  }

  lemma StitchedFromZero(f: Frame, tiles: map<string, Tile>, e: string, a0: seq<real>)
    requires f.Ok() && TilesReady(f, tiles, e)
    requires |a0| == FieldSize(f) && forall m :: 0 <= m < |a0| ==> a0[m] == 0.0
    ensures Stitched(f, tiles, e) == Apply(a0, BandsOf(f, f.p2.ty + 1), tiles, f.z, e)
  {
    assert a0 == seq(FieldSize(f), _ => 0.0);
  }

  /** Row iy of tile (itx, ity) reads inside its tile and writes inside the
      field. */
  lemma RowFits(f: Frame, tiles: map<string, Tile>, e: string, ity: nat, itx: nat, iy: int)
    requires f.Ok() && TilesReady(f, tiles, e)
    requires f.p1.ty <= ity <= f.p2.ty && f.p1.tx <= itx <= f.p2.tx
    requires f.RowFrom(ity) <= iy <= f.RowTo(ity)
    ensures Fits(RowPiece(f, itx, ity, iy), FieldSize(f), tiles, f.z, e)
  {
    RowsInFrame(f, itx, ity, iy + 1);
    assert RowPiece(f, itx, ity, iy) in RowsOf(f, itx, ity, iy + 1);
    PieceFits(f, tiles, e, RowPiece(f, itx, ity, iy));
  }

  /** _createField's loops, filling a freshly zeroed field buffer: ity over
      tile rows ... */
  method FillField(a: array<real>, f: Frame, tiles: map<string, Tile>, e: string)
    requires f.Ok() && TilesReady(f, tiles, e)
    requires a.Length == FieldSize(f) && forall m :: 0 <= m < a.Length ==> a[m] == 0.0
    modifies a
    ensures a[..] == Stitched(f, tiles, e)
  {
    ghost var a0 := a[..];
    FilledStitched(f, tiles, e, a0);
    var ity: nat := f.p1.ty;
    while ity <= f.p2.ty
      invariant f.p1.ty <= ity <= f.p2.ty + 1
      invariant a[..] == Filled(a0, f, tiles, e, ity, f.p1.tx, f.RowFrom(ity))
      decreases f.p2.ty + 1 - ity
    {
      CopyBand(a, f, tiles, e, ity, a0);
      ity := ity + 1;
    }
  }

  /** ... itx over the tiles of tile row ity ... */
  method CopyBand(a: array<real>, f: Frame, tiles: map<string, Tile>, e: string, ity: nat, ghost a0: seq<real>)
    requires f.Ok() && TilesReady(f, tiles, e) && f.p1.ty <= ity <= f.p2.ty
    requires a.Length == |a0| == FieldSize(f)
    requires a[..] == Filled(a0, f, tiles, e, ity, f.p1.tx, f.RowFrom(ity))
    modifies a
    ensures a[..] == Filled(a0, f, tiles, e, ity, f.p2.tx + 1, f.RowFrom(ity))
  {
    var itx: nat := f.p1.tx;
    while itx <= f.p2.tx
      invariant f.p1.tx <= itx <= f.p2.tx + 1
      invariant a[..] == Filled(a0, f, tiles, e, ity, itx, f.RowFrom(ity))
    {
      CopyTile(a, f, tiles, e, ity, itx, a0);
      itx := itx + 1;
    }
  }

  /** ... and iy over the copied pixel rows of tile (itx, ity), one set of
      a subarray of the tile per row. */
  method CopyTile(a: array<real>, f: Frame, tiles: map<string, Tile>, e: string, ity: nat, itx: nat,
                  ghost a0: seq<real>)
    requires f.Ok() && TilesReady(f, tiles, e)
    requires f.p1.ty <= ity <= f.p2.ty && f.p1.tx <= itx <= f.p2.tx
    requires a.Length == |a0| == FieldSize(f)
    requires a[..] == Filled(a0, f, tiles, e, ity, itx, f.RowFrom(ity))
    modifies a
    ensures a[..] == Filled(a0, f, tiles, e, ity, itx, f.RowTo(ity) + 1)
  {
    AxisFits(f.p1.ty, f.p1.y, f.p2.ty, f.p2.y, f.tny, ity);
    var iy := f.RowFrom(ity);
    while iy <= f.RowTo(ity)
      invariant f.RowFrom(ity) <= iy <= f.RowTo(ity) + 1
      invariant a[..] == Filled(a0, f, tiles, e, ity, itx, iy)
    {
      CopyRow(a, f, tiles, e, ity, itx, iy, a0);
      iy := iy + 1;
    }
  }

  /** One pass of the innermost loop: a.set(tile row iy's pixels, offset_f). */
  method CopyRow(a: array<real>, f: Frame, tiles: map<string, Tile>, e: string, ity: nat, itx: nat, iy: int,
                 ghost a0: seq<real>)
    requires f.Ok() && TilesReady(f, tiles, e)
    requires f.p1.ty <= ity <= f.p2.ty && f.p1.tx <= itx <= f.p2.tx
    requires f.RowFrom(ity) <= iy <= f.RowTo(ity)
    requires a.Length == |a0| == FieldSize(f)
    requires a[..] == Filled(a0, f, tiles, e, ity, itx, iy)
    modifies a
    ensures a[..] == Filled(a0, f, tiles, e, ity, itx, iy + 1)
  {
    var p := RowPiece(f, itx, ity, iy);
    RowFits(f, tiles, e, ity, itx, iy);
    SetRange(a, Source(p, tiles, f.z, e), p.at);
  }

  /** new Float32Array(fnx * fny), filled by the copy loops. */
  method NewField(f: Frame, tiles: map<string, Tile>, e: string) returns (a: array<real>)
    requires f.Ok() && TilesReady(f, tiles, e)
    ensures fresh(a) && a[..] == Stitched(f, tiles, e)
  {
    a := new real[FieldSize(f)](_ => 0.0);
    FillField(a, f, tiles, e);
  }

  /** TypedArray.prototype.set(src, at). */
  method SetRange(a: array<real>, src: seq<real>, at: int)
    requires 0 <= at && at + |src| <= a.Length
    modifies a
    ensures a[..] == Paste(old(a[..]), src, at)
  {
    var k := 0;
    while k < |src|
      invariant 0 <= k <= |src|
      invariant forall m :: 0 <= m < a.Length ==> a[m] == if at <= m < at + k then src[m - at] else old(a[m])
    {
      a[at + k] := src[k];
      k := k + 1;
    }
    assert forall m :: 0 <= m < a.Length ==> a[..][m] == Paste(old(a[..]), src, at)[m];
  }
}
