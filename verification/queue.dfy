/** The tile requests one field request makes, in the order it makes them,
    and what the request, the loads and a load's completion do to the tile
    cache (a map from key to tile record). */
module LoadQueue {
  import opened Grid
  import opened Tiles

  /** The GRIB elements one tile position is requested for: the two wind
      components, UGRD before VGRD, for the "wind" layer, and the layer's own
      element otherwise. */
  function Elements(element: string): (es: seq<string>)
    ensures |es| >= 1
  {
    if element == "wind" then ["UGRD", "VGRD"] else [element]
  }

  /** The requests for tile column i of row j: one per element, in order. */
  function CellRequests(i: nat, j: nat, z: nat, es: seq<string>): seq<Coords>
  {
    seq(|es|, k requires 0 <= k < |es| => Coords(i, j, z, es[k]))
  }

  /** The requests for columns i0 .. i1 - 1 of row j, column by column. */
  function RowRequests(i0: nat, i1: int, j: nat, z: nat, es: seq<string>): seq<Coords>
    decreases i1 - i0
  {
    if i1 <= i0 then [] else RowRequests(i0, i1 - 1, j, z, es) + CellRequests(i1 - 1, j, z, es)
  }

  /** A tile range with its minimum corner first, as _getTileRange returns it. */
  predicate Proper(r: TileRange)
  {
    0 <= r.minX <= r.maxX && 0 <= r.minY <= r.maxY
  }

  /** The requests for rows r.minY .. j1 - 1 of the range, row by row. */
  function RangeRequests(r: TileRange, j1: int, z: nat, es: seq<string>): seq<Coords>
    requires Proper(r)
    decreases j1 - r.minY
  {
    if j1 <= r.minY then []
    else RangeRequests(r, j1 - 1, z, es) + RowRequests(r.minX, r.maxX + 1, j1 - 1, z, es)
  }

  /** Everything a request for range r at tile zoom z walks through: rows
      outermost, then columns, then elements. */
  function Requests(r: TileRange, z: nat, es: seq<string>): seq<Coords>
    requires Proper(r)
  {
    RangeRequests(r, r.maxY + 1, z, es)
  }

  // ---------------------------------------------------------------------
  // Which tiles are requested

  lemma {:induction false} RowMember(i0: nat, i1: int, j: nat, z: nat, es: seq<string>, c: Coords)
    ensures c in RowRequests(i0, i1, j, z, es) <==>
            i0 <= c.x < i1 && c.y == j && c.z == z && c.e in es
    decreases i1 - i0
  {
    if i1 > i0 {
      RowMember(i0, i1 - 1, j, z, es, c);
      var cell := CellRequests(i1 - 1, j, z, es);
      assert c in cell <==> c.x == i1 - 1 && c.y == j && c.z == z && c.e in es by {
        if c.x == i1 - 1 && c.y == j && c.z == z && c.e in es {
          var k :| 0 <= k < |es| && es[k] == c.e;
          assert cell[k] == c;
        }
      }
    }
  }

  lemma {:induction false} RangeMember(r: TileRange, j1: int, z: nat, es: seq<string>, c: Coords)
    requires Proper(r)
    ensures c in RangeRequests(r, j1, z, es) <==>
            r.minX <= c.x <= r.maxX && r.minY <= c.y < j1 && c.z == z && c.e in es
    decreases j1 - r.minY
  {
    if j1 > r.minY {
      RangeMember(r, j1 - 1, z, es, c);
      RowMember(r.minX, r.maxX + 1, j1 - 1, z, es, c);
    }
  }

  /** A request asks for exactly the coordinates inside the range, at the
      chosen zoom, for each of the elements. */
  lemma RequestsMember(r: TileRange, z: nat, es: seq<string>, c: Coords)
    requires Proper(r)
    ensures c in Requests(r, z, es) <==>
            r.minX <= c.x <= r.maxX && r.minY <= c.y <= r.maxY && c.z == z && c.e in es
  {
    RangeMember(r, r.maxY + 1, z, es, c);
  }

  // ---------------------------------------------------------------------
  // In which order

  /** Width of a proper range in tiles. */
  function Columns(r: TileRange): nat
    requires Proper(r)
  {
    r.maxX - r.minX + 1
  }

  lemma {:induction false} RowLength(i0: nat, i1: int, j: nat, z: nat, es: seq<string>)
    requires i0 <= i1
    ensures |RowRequests(i0, i1, j, z, es)| == (i1 - i0) * |es|
    decreases i1 - i0
  {
    if i1 > i0 {
      RowLength(i0, i1 - 1, j, z, es);
      assert (i1 - 1 - i0) * |es| + |es| == (i1 - i0) * |es|;
    }
  }

  lemma {:induction false} RowIndex(i0: nat, i1: int, j: nat, z: nat, es: seq<string>, i: nat, k: nat)
    requires i0 <= i < i1 && k < |es|
    ensures 0 <= (i - i0) * |es| + k < |RowRequests(i0, i1, j, z, es)|
    ensures RowRequests(i0, i1, j, z, es)[(i - i0) * |es| + k] == Coords(i, j, z, es[k])
    decreases i1 - i0
  {
    var n := (i - i0) * |es| + k;
    RowLength(i0, i1 - 1, j, z, es);
    RowLength(i0, i1, j, z, es);
    MulMonotone(0, i - i0, |es|);
    if i == i1 - 1 {
      assert RowRequests(i0, i1, j, z, es)[n] == CellRequests(i, j, z, es)[k];
    } else {
      RowIndex(i0, i1 - 1, j, z, es, i, k);
      MulMonotone(i - i0 + 1, i1 - 1 - i0, |es|);
    }
  }

  /** The position of (column b, element k) in row a of a row-major walk
      over rows of w columns of e elements lies in row a's block. */
  lemma RowMajorBlock(a: nat, w: nat, b: nat, e: nat, k: nat)
    requires b < w && k < e
    ensures (a * w + b) * e + k == a * w * e + (b * e + k)
    ensures b * e + k < w * e
  {
    MulMonotone(b + 1, w, e);
  }

  lemma {:induction false} RangeLength(r: TileRange, j1: int, z: nat, es: seq<string>)
    requires Proper(r) && r.minY <= j1
    ensures |RangeRequests(r, j1, z, es)| == (j1 - r.minY) * Columns(r) * |es|
    decreases j1 - r.minY
  {
    if j1 > r.minY {
      RangeLength(r, j1 - 1, z, es);
      RowLength(r.minX, r.maxX + 1, j1 - 1, z, es);
      BlockSucc(j1 - 1 - r.minY, Columns(r), |es|);
    }
  }

  /** One more row of c columns of e elements. */
  lemma BlockSucc(a: int, c: int, e: int)
    ensures (a + 1) * c * e == a * c * e + c * e
  {
  }

  lemma {:induction false} RangeIndex(r: TileRange, j1: int, z: nat, es: seq<string>, i: nat, j: nat, k: nat)
    requires Proper(r) && r.minX <= i <= r.maxX && r.minY <= j < j1 && k < |es|
    ensures var n := ((j - r.minY) * Columns(r) + (i - r.minX)) * |es| + k;
      0 <= n < |RangeRequests(r, j1, z, es)| &&
      RangeRequests(r, j1, z, es)[n] == Coords(i, j, z, es[k])
    decreases j1 - r.minY
  {
    var a := j - r.minY;
    var b := i - r.minX;
    var n := (a * Columns(r) + b) * |es| + k;
    RowMajorBlock(a, Columns(r), b, |es|, k);
    RangeLength(r, j1 - 1, z, es);
    RangeLength(r, j1, z, es);
    if j == j1 - 1 {
      RowIndex(r.minX, r.maxX + 1, j, z, es, i, k);
    } else {
      RangeIndex(r, j1 - 1, z, es, i, j, k);
    }
  }

  /** The walk is row-major: the request for column i of row j and element
      number k sits at position ((j - minY) * columns + (i - minX)) * |es| + k,
      so rows come in order, columns in order within a row, and the elements
      of one tile position (UGRD before VGRD for wind) next to each other. */
  lemma RequestsOrder(r: TileRange, z: nat, es: seq<string>, i: nat, j: nat, k: nat)
    requires Proper(r) && r.minX <= i <= r.maxX && r.minY <= j <= r.maxY && k < |es|
    ensures |Requests(r, z, es)| == (r.maxY - r.minY + 1) * Columns(r) * |es|
    ensures var n := ((j - r.minY) * Columns(r) + (i - r.minX)) * |es| + k;
      0 <= n < |Requests(r, z, es)| && Requests(r, z, es)[n] == Coords(i, j, z, es[k])
  {
    RangeLength(r, r.maxY + 1, z, es);
    RangeIndex(r, r.maxY + 1, z, es, i, j, k);
  }

  // ---------------------------------------------------------------------
  // Which requests are queued

  /** The requests whose key is not among `keys`, in their original order. */
  function Missing(cs: seq<Coords>, keys: set<string>): seq<Coords>
  {
    if cs == [] then []
    else Missing(cs[..|cs| - 1], keys) + (if Key(cs[|cs| - 1]) in keys then [] else [cs[|cs| - 1]])
  }

  lemma {:induction false} MissingAppend(a: seq<Coords>, b: seq<Coords>, keys: set<string>)
    ensures Missing(a + b, keys) == Missing(a, keys) + Missing(b, keys)
    decreases |b|
  {
    if b == [] {
      assert a + b == a;
    } else {
      var b' := b[..|b| - 1];
      assert (a + b)[..|a + b| - 1] == a + b';
      assert (a + b)[|a + b| - 1] == b[|b| - 1];
      MissingAppend(a, b', keys);
    }
  }

  /** Queued are exactly the requests whose tile is not cached. */
  lemma {:induction false} MissingMember(cs: seq<Coords>, keys: set<string>, c: Coords)
    ensures c in Missing(cs, keys) <==> c in cs && Key(c) !in keys
  {
    if cs != [] {
      var cs' := cs[..|cs| - 1];
      MissingMember(cs', keys, c);
      assert cs == cs' + [cs[|cs| - 1]];
    }
  }

  /** The queue is empty exactly when every requested tile is cached. */
  lemma {:induction false} MissingEmpty(cs: seq<Coords>, keys: set<string>)
    ensures Missing(cs, keys) == [] <==> forall c :: c in cs ==> Key(c) in keys
  {
    if cs != [] {
      var cs' := cs[..|cs| - 1];
      MissingEmpty(cs', keys);
      assert cs == cs' + [cs[|cs| - 1]];
    }
  }

  /** The keys of a list of requests. */
  function KeysOf(cs: seq<Coords>): set<string>
  {
    set c | c in cs :: Key(c)
  }

  // ---------------------------------------------------------------------
  // The tile cache

  /** Every entry's `current` flag cleared. */
  function Cleared(t: map<string, Tile>): (u: map<string, Tile>)
    ensures u.Keys == t.Keys
    ensures forall k :: k in u ==>
      !u[k].current && u[k].coords == t[k].coords && u[k].loaded == t[k].loaded && u[k].data == t[k].data
  {
    map k | k in t :: t[k].(current := false)
  }

  /** The entries filed under a key in `ks` marked current. */
  function Marked(t: map<string, Tile>, ks: set<string>): map<string, Tile>
  {
    map k | k in t :: if k in ks then t[k].(current := true) else t[k]
  }

  lemma KeysOfAppend(a: seq<Coords>, b: seq<Coords>)
    ensures KeysOf(a + b) == KeysOf(a) + KeysOf(b)
  {
  }

  /** Marking no key changes nothing. */
  lemma MarkedNothing(t: map<string, Tile>)
    ensures Marked(t, {}) == t
  {
  }

  /** Marking in two steps is marking the union. */
  lemma MarkedTwice(t: map<string, Tile>, a: set<string>, b: set<string>)
    ensures Marked(Marked(t, a), b) == Marked(t, a + b)
  {
  }

  /** After a request the cache holds the same entries, with the same load
      state and data, and an entry is current exactly when the request asked
      for it. */
  lemma CurrentIffRequested(t: map<string, Tile>, cs: seq<Coords>)
    ensures var u := Marked(Cleared(t), KeysOf(cs));
      u.Keys == t.Keys &&
      forall k :: k in u ==>
        (u[k].current <==> exists c :: c in cs && Key(c) == k) &&
        u[k].loaded == t[k].loaded && u[k].data == t[k].data && u[k].coords == t[k].coords
  {
  }

  // ---------------------------------------------------------------------
  // The request walk, step by step

  /** The part of the layer's state the request walk changes. */
  datatype LoadState = LoadState(tiles: map<string, Tile>, queue: seq<Coords>)

  /** _enqueue on values: a cached request's entry is marked current, a
      missing request is appended to the queue. */
  function EnqueueStep(s: LoadState, c: Coords): (s': LoadState)
    ensures s'.tiles.Keys == s.tiles.Keys
    ensures Key(c) in s.tiles ==> s'.queue == s.queue && s'.tiles[Key(c)].current
    ensures Key(c) !in s.tiles ==> s'.queue == s.queue + [c] && s'.tiles == s.tiles
  {
    var k := Key(c);
    if k in s.tiles then LoadState(s.tiles[k := s.tiles[k].(current := true)], s.queue)
    else LoadState(s.tiles, s.queue + [c])
  }

  /** The requests cs enqueued one after another. */
  function Walk(s: LoadState, cs: seq<Coords>): LoadState
  {
    if cs == [] then s else EnqueueStep(Walk(s, cs[..|cs| - 1]), cs[|cs| - 1])
  }

  /** Walking a + b is walking a, then b. */
  lemma {:induction false} WalkAppend(s: LoadState, a: seq<Coords>, b: seq<Coords>)
    ensures Walk(s, a + b) == Walk(Walk(s, a), b)
    decreases |b|
  {
    if b == [] {
      assert a + b == a;
    } else {
      var b' := b[..|b| - 1];
      assert (a + b)[..|a + b| - 1] == a + b';
      assert (a + b)[|a + b| - 1] == b[|b| - 1];
      WalkAppend(s, a, b');
    }
  }

  /** Walking two requests. */
  lemma WalkTwo(s: LoadState, a: Coords, b: Coords)
    ensures Walk(s, [a]) == EnqueueStep(s, a)
    ensures Walk(s, [a, b]) == EnqueueStep(EnqueueStep(s, a), b)
  {
    assert [a][..0] == [];
    assert [a, b][..1] == [a];
  }

  /** The walk of _getField's inner loop: the cells of columns i0 .. i1 - 1
      of row j, one after another. */
  function WalkRow(s: LoadState, i0: nat, i1: int, j: nat, z: nat, es: seq<string>): LoadState
    decreases i1 - i0
  {
    if i1 <= i0 then s else Walk(WalkRow(s, i0, i1 - 1, j, z, es), CellRequests(i1 - 1, j, z, es))
  }

  /** The walk of _getField's outer loop: rows r.minY .. j1 - 1, one after
      another. */
  function WalkRange(s: LoadState, r: TileRange, j1: int, z: nat, es: seq<string>): LoadState
    requires Proper(r)
    decreases j1 - r.minY
  {
    if j1 <= r.minY then s else WalkRow(WalkRange(s, r, j1 - 1, z, es), r.minX, r.maxX + 1, j1 - 1, z, es)
  }

  /** The row loop walks the row's requests in order. */
  lemma {:induction false} WalkRowInOrder(s: LoadState, i0: nat, i1: int, j: nat, z: nat, es: seq<string>)
    ensures WalkRow(s, i0, i1, j, z, es) == Walk(s, RowRequests(i0, i1, j, z, es))
    decreases i1 - i0
  {
    if i1 > i0 {
      WalkRowInOrder(s, i0, i1 - 1, j, z, es);
      WalkAppend(s, RowRequests(i0, i1 - 1, j, z, es), CellRequests(i1 - 1, j, z, es));
    }
  }

  /** The nested loops walk the range's requests in order. */
  lemma {:induction false} WalkRangeInOrder(s: LoadState, r: TileRange, j1: int, z: nat, es: seq<string>)
    requires Proper(r)
    ensures WalkRange(s, r, j1, z, es) == Walk(s, RangeRequests(r, j1, z, es))
    decreases j1 - r.minY
  {
    if j1 > r.minY {
      WalkRangeInOrder(s, r, j1 - 1, z, es);
      WalkRangeStep(s, r, j1, z, es);
    }
  }

  /** The step of WalkRangeInOrder: row j1 - 1 on top of the rows before it. */
  lemma WalkRangeStep(s: LoadState, r: TileRange, j1: int, z: nat, es: seq<string>)
    requires Proper(r) && j1 > r.minY
    requires WalkRange(s, r, j1 - 1, z, es) == Walk(s, RangeRequests(r, j1 - 1, z, es))
    ensures WalkRange(s, r, j1, z, es) == Walk(s, RangeRequests(r, j1, z, es))
  {
    WalkRowAfter(s, RangeRequests(r, j1 - 1, z, es), r.minX, r.maxX + 1, j1 - 1, z, es);
  }

  /** Walking a row after some requests is walking the requests followed by the row's. */
  lemma WalkRowAfter(s: LoadState, done: seq<Coords>, i0: nat, i1: int, j: nat, z: nat, es: seq<string>)
    ensures WalkRow(Walk(s, done), i0, i1, j, z, es) == Walk(s, done + RowRequests(i0, i1, j, z, es))
  {
    WalkRowInOrder(Walk(s, done), i0, i1, j, z, es);
    WalkAppend(s, done, RowRequests(i0, i1, j, z, es));
  }

  /** One enqueue on top of a marked cache: the key joins the marked ones,
      and the request is queued when the original cache lacks it. */
  lemma EnqueueStepMeaning(t: map<string, Tile>, ks: set<string>, q: seq<Coords>, c: Coords)
    ensures EnqueueStep(LoadState(Marked(t, ks), q), c) ==
            LoadState(Marked(t, ks + {Key(c)}), q + if Key(c) in t then [] else [c])
  {
    MarkedTwice(t, ks, {Key(c)});
  }

  /** The nested loops of _getField, walked over the whole range, leave the
      cache with its keys, the requested cached entries marked current, and
      the missing requests appended to the queue in walk order. */
  lemma RangeWalked(s0: LoadState, s1: LoadState, r: TileRange, z: nat, es: seq<string>)
    requires Proper(r) && s1 == WalkRange(s0, r, r.maxY + 1, z, es)
    ensures s1.tiles.Keys == s0.tiles.Keys
    ensures s1.tiles == Marked(s0.tiles, KeysOf(Requests(r, z, es)))
    ensures s1.queue == s0.queue + Missing(Requests(r, z, es), s0.tiles.Keys)
  {
    WalkRangeInOrder(s0, r, r.maxY + 1, z, es);
    WalkMeaning(s0, Requests(r, z, es));
  }

  /** What a walk does, all at once: the cache keeps its keys, the cached
      requested entries are marked current, and the queue gains the missing
      requests in walk order. */
  lemma {:induction false} WalkMeaning(s: LoadState, cs: seq<Coords>)
    ensures Walk(s, cs) == LoadState(Marked(s.tiles, KeysOf(cs)), s.queue + Missing(cs, s.tiles.Keys))
  {
    if cs == [] {
      assert KeysOf(cs) == {};
      MarkedNothing(s.tiles);
    } else {
      var cs', c := cs[..|cs| - 1], cs[|cs| - 1];
      WalkMeaning(s, cs');
      WalkMeaningStep(s, cs', c);
      assert cs == cs' + [c];
    }
  }

  /** The step of WalkMeaning: one more request on top of a walk. */
  lemma WalkMeaningStep(s: LoadState, cs: seq<Coords>, c: Coords)
    requires Walk(s, cs) == LoadState(Marked(s.tiles, KeysOf(cs)), s.queue + Missing(cs, s.tiles.Keys))
    ensures Walk(s, cs + [c]) ==
            LoadState(Marked(s.tiles, KeysOf(cs + [c])), s.queue + Missing(cs + [c], s.tiles.Keys))
  {
    var cs' := cs + [c];
    assert cs'[..|cs'| - 1] == cs;
    KeysOfSnoc(cs, c);
    EnqueueStepMeaning(s.tiles, KeysOf(cs), s.queue + Missing(cs, s.tiles.Keys), c);
    MissingSnoc(s.queue, cs, c, s.tiles.Keys);
  }

  lemma KeysOfSnoc(cs: seq<Coords>, c: Coords)
    ensures KeysOf(cs + [c]) == KeysOf(cs) + {Key(c)}
  {
    KeysOfAppend(cs, [c]);
    assert KeysOf([c]) == {Key(c)};
  }

  lemma MissingSnoc(q: seq<Coords>, cs: seq<Coords>, c: Coords, keys: set<string>)
    ensures q + Missing(cs + [c], keys) == q + Missing(cs, keys) + if Key(c) in keys then [] else [c]
  {
    var cs' := cs + [c];
    assert cs'[..|cs'| - 1] == cs;
  }

  /** The cache after _getTile has inserted a fresh record for each queued
      request, in order: the queued keys are added and no other. */
  function Installed(t: map<string, Tile>, cs: seq<Coords>): (u: map<string, Tile>)
    ensures u.Keys == t.Keys + KeysOf(cs)
  {
    if cs == [] then t
    else
      var cs' := cs[..|cs| - 1];
      var c := cs[|cs| - 1];
      assert cs == cs' + [c];
      KeysOfSnoc(cs', c);
      Installed(t, cs')[Key(c) := NewTile(c)]
  }

  /** Keys not yet loaded. */
  function Unloaded(t: map<string, Tile>): set<string>
  {
    set k | k in t && !t[k].loaded
  }

  /** _noTilesToLoad's condition: every entry loaded. */
  predicate AllLoaded(t: map<string, Tile>)
  {
    forall k :: k in t ==> t[k].loaded
  }

  lemma AllLoadedIffNoneUnloaded(t: map<string, Tile>)
    ensures AllLoaded(t) <==> Unloaded(t) == {}
  {
    if !AllLoaded(t) {
      var k :| k in t && !t[k].loaded;
      assert k in Unloaded(t);
    }
  }

  /** Each queued request ends up filed under its key as a fresh record of its
      own coordinates, neither loaded nor current. */
  lemma {:induction false} InstalledFresh(t: map<string, Tile>, cs: seq<Coords>, d: Coords)
    requires d in cs
    ensures Key(d) in Installed(t, cs) && Installed(t, cs)[Key(d)] == NewTile(d)
  {
    var cs' := cs[..|cs| - 1];
    var c := cs[|cs| - 1];
    assert cs == cs' + [c];
    if Key(d) == Key(c) {
      KeyInjective(d, c);
    } else {
      InstalledFresh(t, cs', d);
    }
  }

  /** Entries the queue does not name are left alone. */
  lemma {:induction false} InstalledOthers(t: map<string, Tile>, cs: seq<Coords>, k: string)
    requires k in t && k !in KeysOf(cs)
    ensures k in Installed(t, cs) && Installed(t, cs)[k] == t[k]
  {
    if cs != [] {
      var cs' := cs[..|cs| - 1];
      assert cs == cs' + [cs[|cs| - 1]];
      assert KeysOf(cs) == KeysOf(cs') + {Key(cs[|cs| - 1])};
      InstalledOthers(t, cs', k);
    }
  }

  /** After loading the queue, the unloaded keys are the old unloaded keys
      plus the queued ones. */
  lemma InstalledUnloaded(t: map<string, Tile>, cs: seq<Coords>)
    ensures Unloaded(Installed(t, cs)) == Unloaded(t) + KeysOf(cs)
  {
    var u := Installed(t, cs);
    forall k | k in u
      ensures !u[k].loaded <==> k in Unloaded(t) || k in KeysOf(cs)
    {
      if k in KeysOf(cs) {
        var d :| d in cs && Key(d) == k;
        InstalledFresh(t, cs, d);
      } else {
        InstalledOthers(t, cs, k);
      }
    }
  }

  /** The cache once the request for c has delivered `data`. */
  function Delivered(t: map<string, Tile>, c: Coords, data: seq<real>): (u: map<string, Tile>)
    requires Key(c) in t
    ensures u.Keys == t.Keys
    ensures u[Key(c)].loaded && u[Key(c)].data == data
    ensures u[Key(c)].coords == t[Key(c)].coords && u[Key(c)].current == t[Key(c)].current
    ensures forall k :: k in t && k != Key(c) ==> u[k] == t[k]
  {
    t[Key(c) := t[Key(c)].(loaded := true, data := data)]
  }

  /** A delivery completes the load exactly when its tile was the only one
      still missing: any other unloaded entry (a stale one whose request was
      aborted included) keeps the cache incomplete. */
  lemma DeliveryCompletes(t: map<string, Tile>, c: Coords, data: seq<real>)
    requires Key(c) in t
    ensures AllLoaded(Delivered(t, c, data)) <==> Unloaded(t) <= {Key(c)}
  {
    var u := Delivered(t, c, data);
    if !AllLoaded(u) {
      var k :| k in u && !u[k].loaded;
      assert k in Unloaded(t) && k != Key(c);
    }
    if !(Unloaded(t) <= {Key(c)}) {
      var k :| k in Unloaded(t) && k != Key(c);
      assert k in u && !u[k].loaded;
    }
  }
}
