/**
 * The tiler of the clip pipeline: a padded area-of-interest bounding box is
 * cut into a row-major grid of query tiles at most `step` degrees on a side,
 * the last row and the last column clamped to the box edge.
 * Coordinates are exact reals, so accumulated floating-point rounding of
 * `lat + step` is not part of this model.
 */
module Tiler {

  /** (south, west, north, east) in degrees. */
  datatype BBox = BBox(south: real, west: real, north: real, east: real)

  /** The extent of a geometry as the geometry library reports it. */
  datatype Extent = Extent(xMin: real, yMin: real, xMax: real, yMax: real)

  /** A half-open run of one coordinate: (start, end). */
  type Span = (real, real)

  function Min(a: real, b: real): real { if a <= b then a else b }

  /** `bbox_of_geom`: the extent grown by `pad` on every side. */
  function BBoxOfGeom(ext: Extent, pad: real): BBox
  {
    BBox(ext.yMin - pad, ext.xMin - pad, ext.yMax + pad, ext.xMax + pad)
  }

  /** A non-negative pad gives a box that contains the extent; a positive pad
      around a well-formed extent (even a single point) gives a proper box. */
  lemma BBoxOfGeomContains(ext: Extent, pad: real)
    requires pad >= 0.0
    ensures var b := BBoxOfGeom(ext, pad);
      && b.south <= ext.yMin && b.west <= ext.xMin
      && ext.yMax <= b.north && ext.xMax <= b.east
      && b.north - b.south == ext.yMax - ext.yMin + 2.0 * pad
      && b.east - b.west == ext.xMax - ext.xMin + 2.0 * pad
      && (pad > 0.0 && ext.xMin <= ext.xMax && ext.yMin <= ext.yMax ==> b.south < b.north && b.west < b.east)
  {
  }

  /** A ghost measure for the cursor loops: how many more steps of `step`
      remain before the cursor reaches `hi`. */
  ghost function Steps(lo: real, hi: real, step: real): nat
    requires step > 0.0
  {
    if lo >= hi then 0 else (((hi - lo) / step).Floor + 1) as nat
  }

  lemma StepsDecrease(lo: real, hi: real, step: real)
    requires step > 0.0 && lo < hi
    ensures Steps(Min(lo + step, hi), hi, step) < Steps(lo, hi, step)
  {
    if lo + step < hi {
      DivSub(hi - lo, step);
      assert hi - (lo + step) == (hi - lo) - step;
    }
  }

  lemma DivSub(x: real, s: real)
    requires s > 0.0
    ensures (x - s) / s == x / s - 1.0
  {
    assert s / s == 1.0;
    assert (x - s) / s == x / s - s / s;
  }

  /** The successive cursor positions of one loop of `tiles_from_bbox`, as
      spans: from `lo`, advance by `step`, clamp to `hi`, stop at `hi`. */
  function Spans(lo: real, hi: real, step: real): seq<Span>
    requires step > 0.0
    decreases Steps(lo, hi, step)
  {
    if lo < hi then
      var next := Min(lo + step, hi);
      StepsDecrease(lo, hi, step);
      [(lo, next)] + Spans(next, hi, step)
    else []
  }

  /** One row of tiles: the latitude span paired with each longitude span. */
  function Row(lat: Span, lons: seq<Span>): seq<BBox>
  {
    if lons == [] then [] else [BBox(lat.0, lons[0].0, lat.1, lons[0].1)] + Row(lat, lons[1..])
  }

  /** All rows, south to north. */
  function Grid(lats: seq<Span>, lons: seq<Span>): seq<BBox>
  {
    if lats == [] then [] else Row(lats[0], lons) + Grid(lats[1..], lons)
  }

  /** The tile sequence `tiles_from_bbox` produces. */
  function TileGrid(b: BBox, step: real): seq<BBox>
    requires step > 0.0
  {
    Grid(Spans(b.south, b.north, step), Spans(b.west, b.east, step))
  }

  /** `tiles_from_bbox`: nested cursor loops, latitude outside, longitude inside. */
  method TilesFromBBox(b: BBox, step: real) returns (tiles: seq<BBox>)
    requires step > 0.0
    ensures tiles == TileGrid(b, step)
  {
    var s, w, n, e := b.south, b.west, b.north, b.east;
    tiles := [];
    var lat := s;
    ghost var lons := Spans(w, e, step);
    while lat < n
      invariant tiles + Grid(Spans(lat, n, step), lons) == TileGrid(b, step)
      decreases Steps(lat, n, step)
    {
      var nextLat := Min(lat + step, n);
      StepsDecrease(lat, n, step);
      assert Grid(Spans(lat, n, step), lons) == Row((lat, nextLat), lons) + Grid(Spans(nextLat, n, step), lons);
      ghost var before := tiles;
      var lon := w;
      while lon < e
        invariant tiles + Row((lat, nextLat), Spans(lon, e, step)) == before + Row((lat, nextLat), lons)
        decreases Steps(lon, e, step)
      {
        var nextLon := Min(lon + step, e);
        StepsDecrease(lon, e, step);
        assert Row((lat, nextLat), Spans(lon, e, step))
          == [BBox(lat, lon, nextLat, nextLon)] + Row((lat, nextLat), Spans(nextLon, e, step));
        tiles := tiles + [BBox(lat, lon, nextLat, nextLon)];
        lon := nextLon;
      }
      assert tiles == before + Row((lat, nextLat), lons);
      lat := nextLat;
    }
  }

  /** The spans partition [lo, hi]: none when lo >= hi; otherwise the first
      starts at lo, each starts where the previous one ended, the last ends at
      hi, every span is non-empty and at most `step` long, and all but the
      last are exactly `step` long. */
  lemma {:induction false} SpansPartition(lo: real, hi: real, step: real)
    requires step > 0.0
    ensures var r := Spans(lo, hi, step);
      && (r == [] <==> lo >= hi)
      && (r != [] ==> r[0].0 == lo && r[|r| - 1].1 == hi)
      && (forall i :: 0 <= i < |r| - 1 ==> r[i].1 == r[i + 1].0 && r[i].1 - r[i].0 == step)
      && (forall i :: 0 <= i < |r| ==> lo <= r[i].0 < r[i].1 <= hi && r[i].1 - r[i].0 <= step)
    decreases Steps(lo, hi, step)
  {
    if lo < hi {
      var next := Min(lo + step, hi);
      StepsDecrease(lo, hi, step);
      SpansPartition(next, hi, step);
      var rest := Spans(next, hi, step);
      var r := Spans(lo, hi, step);
      assert r == [(lo, next)] + rest;
      if rest == [] {
        assert next == hi;
      } else {
        assert next < hi;
        assert next == lo + step;
      }
      forall i | 0 <= i < |r| - 1
        ensures r[i].1 == r[i + 1].0 && r[i].1 - r[i].0 == step
      {
        if i > 0 { assert r[i] == rest[i - 1] && r[i + 1] == rest[i]; }
      }
      forall i | 0 <= i < |r|
        ensures lo <= r[i].0 < r[i].1 <= hi && r[i].1 - r[i].0 <= step
      {
        if i > 0 { assert r[i] == rest[i - 1]; }
      }
    }
  }

  /** Spans further along lie further along: no two spans overlap except at a shared end. */
  lemma {:induction false} SpansOrdered(lo: real, hi: real, step: real, i: nat, j: nat)
    requires step > 0.0
    requires i < j < |Spans(lo, hi, step)|
    ensures Spans(lo, hi, step)[i].1 <= Spans(lo, hi, step)[j].0
    decreases j - i
  {
    SpansPartition(lo, hi, step);
    var r := Spans(lo, hi, step);
    if j > i + 1 {
      SpansOrdered(lo, hi, step, i + 1, j);
    }
  }

  /** Every point of [lo, hi] lies in some span. */
  lemma {:induction false} SpansCover(lo: real, hi: real, step: real, y: real)
    requires step > 0.0 && lo <= y <= hi && lo < hi
    ensures exists i :: 0 <= i < |Spans(lo, hi, step)| && Spans(lo, hi, step)[i].0 <= y <= Spans(lo, hi, step)[i].1
    decreases Steps(lo, hi, step)
  {
    var next := Min(lo + step, hi);
    StepsDecrease(lo, hi, step);
    var r := Spans(lo, hi, step);
    assert r == [(lo, next)] + Spans(next, hi, step);
    if y <= next {
      assert r[0].0 <= y <= r[0].1;
    } else {
      SpansCover(next, hi, step, y);
      var k :| 0 <= k < |Spans(next, hi, step)| && Spans(next, hi, step)[k].0 <= y <= Spans(next, hi, step)[k].1;
      assert r[k + 1] == Spans(next, hi, step)[k];
    }
  }

  lemma {:induction false} RowAt(lat: Span, lons: seq<Span>, c: nat)
    requires c < |lons|
    ensures |Row(lat, lons)| == |lons|
    ensures Row(lat, lons)[c] == BBox(lat.0, lons[c].0, lat.1, lons[c].1)
  {
    if c > 0 { RowAt(lat, lons[1..], c - 1); } else if |lons| > 1 { RowAt(lat, lons[1..], 0); }
  }

  lemma {:induction false} RowLength(lat: Span, lons: seq<Span>)
    ensures |Row(lat, lons)| == |lons|
  {
    if lons != [] { RowLength(lat, lons[1..]); }
  }

  lemma {:induction false} GridLength(lats: seq<Span>, lons: seq<Span>)
    ensures |Grid(lats, lons)| == |lats| * |lons|
  {
    if lats != [] {
      RowLength(lats[0], lons);
      GridLength(lats[1..], lons);
      assert |lats| * |lons| == |lons| + (|lats| - 1) * |lons|;
    }
  }

  /** One span, seen on its own: inside [lo, hi], non-empty, at most `step`
      long; the first starts at lo, the last ends at hi, and any other ends
      where the next begins after exactly `step`. */
  lemma SpanAt(lo: real, hi: real, step: real, i: nat)
    requires step > 0.0 && i < |Spans(lo, hi, step)|
    ensures var r := Spans(lo, hi, step);
      && lo <= r[i].0 < r[i].1 <= hi && r[i].1 - r[i].0 <= step
      && (i == 0 ==> r[i].0 == lo)
      && (i == |r| - 1 ==> r[i].1 == hi)
      && (i < |r| - 1 ==> r[i].1 == r[i + 1].0 && r[i].1 - r[i].0 == step)
  {
    SpansPartition(lo, hi, step);
  }

  lemma SpansEmpty(lo: real, hi: real, step: real)
    requires step > 0.0
    ensures Spans(lo, hi, step) == [] <==> lo >= hi
  {
    SpansPartition(lo, hi, step);
  }

  lemma MulSucc(r: nat, m: nat)
    ensures (r + 1) * m == r * m + m
  {
  }

  lemma {:induction false} MulMono(a: nat, b: nat, m: nat)
    requires a <= b
    ensures a * m <= b * m
    decreases b - a
  {
    if a < b {
      MulMono(a, b - 1, m);
      MulSucc(b - 1, m);
    }
  }

  /** Index arithmetic of a grid with m columns and n rows: position k is row r, column c. */
  lemma RowMajorSplit(k: nat, m: nat, n: nat) returns (r: nat, c: nat)
    requires m > 0 && k < n * m
    ensures k == r * m + c && r < n && c < m
  {
    r, c := k / m, k % m;
    if r >= n {
      MulMono(n, r, m);
    }
  }

  /** Row-major order: an earlier position is an earlier row, or the same row further west. */
  lemma RowMajorOrder(r1: nat, c1: nat, r2: nat, c2: nat, m: nat)
    requires c1 < m && c2 < m && r1 * m + c1 < r2 * m + c2
    ensures r1 < r2 || (r1 == r2 && c1 < c2)
  {
    if r1 > r2 {
      MulMono(r2 + 1, r1, m);
      MulSucc(r2, m);
    } else if r1 == r2 {
    }
  }

  /** Row-major layout: tile number r*|lons| + c is latitude span r crossed with longitude span c. */
  lemma {:induction false} GridAt(lats: seq<Span>, lons: seq<Span>, r: nat, c: nat)
    requires r < |lats| && c < |lons|
    ensures r * |lons| + c < |Grid(lats, lons)|
    ensures Grid(lats, lons)[r * |lons| + c] == BBox(lats[r].0, lons[c].0, lats[r].1, lons[c].1)
  {
    RowLength(lats[0], lons);
    if r == 0 {
      RowAt(lats[0], lons, c);
    } else {
      GridAt(lats[1..], lons, r - 1, c);
      MulSucc(r - 1, |lons|);
    }
  }

  /** Tile k of the grid, located by its row and column. */
  lemma TileIndex(b: BBox, step: real, k: nat) returns (r: nat, c: nat)
    requires step > 0.0 && k < |TileGrid(b, step)|
    ensures var lats, lons := Spans(b.south, b.north, step), Spans(b.west, b.east, step);
      && r < |lats| && c < |lons| && k == r * |lons| + c
      && TileGrid(b, step)[k] == BBox(lats[r].0, lons[c].0, lats[r].1, lons[c].1)
  {
    var lats, lons := Spans(b.south, b.north, step), Spans(b.west, b.east, step);
    GridLength(lats, lons);
    r, c := RowMajorSplit(k, |lons|, |lats|);
    GridAt(lats, lons, r, c);
  }

  lemma TileBoundsAt(b: BBox, step: real, k: nat)
    requires step > 0.0 && k < |TileGrid(b, step)|
    ensures var t := TileGrid(b, step)[k];
      && b.south <= t.south < t.north <= b.north
      && b.west <= t.west < t.east <= b.east
      && t.north - t.south <= step && t.east - t.west <= step
  {
    var r, c := TileIndex(b, step, k);
    SpanAt(b.south, b.north, step, r);
    SpanAt(b.west, b.east, step, c);
  }

  /** The tile bounds promised by `tiles_from_bbox`: a degenerate box gives no
      tiles; otherwise every tile lies inside the box, is non-empty and is at
      most `step` on each side. */
  lemma TilesInsideBox(b: BBox, step: real)
    requires step > 0.0
    ensures (b.south >= b.north || b.west >= b.east) ==> TileGrid(b, step) == []
    ensures forall t :: t in TileGrid(b, step) ==>
      && b.south <= t.south < t.north <= b.north
      && b.west <= t.west < t.east <= b.east
      && t.north - t.south <= step && t.east - t.west <= step
  {
    var lats, lons := Spans(b.south, b.north, step), Spans(b.west, b.east, step);
    GridLength(lats, lons);
    SpansEmpty(b.south, b.north, step);
    SpansEmpty(b.west, b.east, step);
    forall t | t in TileGrid(b, step)
      ensures && b.south <= t.south < t.north <= b.north
              && b.west <= t.west < t.east <= b.east
              && t.north - t.south <= step && t.east - t.west <= step
    {
      var k :| 0 <= k < |TileGrid(b, step)| && TileGrid(b, step)[k] == t;
      TileBoundsAt(b, step, k);
    }
  }

  /** A proper box gives a proper grid of |lats| rows and |lons| columns. */
  lemma TilesShape(b: BBox, step: real)
    requires step > 0.0 && b.south < b.north && b.west < b.east
    ensures var lats, lons := Spans(b.south, b.north, step), Spans(b.west, b.east, step);
      |lats| > 0 && |lons| > 0 && |TileGrid(b, step)| == |lats| * |lons|
  {
    SpansEmpty(b.south, b.north, step);
    SpansEmpty(b.west, b.east, step);
    GridLength(Spans(b.south, b.north, step), Spans(b.west, b.east, step));
  }

  /** The first tile starts at the south-west corner and the last one ends at the north-east corner. */
  lemma TilesCorners(b: BBox, step: real)
    requires step > 0.0 && b.south < b.north && b.west < b.east
    ensures var tiles := TileGrid(b, step);
      && |tiles| > 0
      && tiles[0].south == b.south && tiles[0].west == b.west
      && tiles[|tiles| - 1].north == b.north && tiles[|tiles| - 1].east == b.east
  {
    var lats, lons := Spans(b.south, b.north, step), Spans(b.west, b.east, step);
    TilesShape(b, step);
    SpanAt(b.south, b.north, step, 0);
    SpanAt(b.west, b.east, step, 0);
    SpanAt(b.south, b.north, step, |lats| - 1);
    SpanAt(b.west, b.east, step, |lons| - 1);
    GridAt(lats, lons, 0, 0);
    GridAt(lats, lons, |lats| - 1, |lons| - 1);
    MulSucc(|lats| - 1, |lons|);
  }

  /** Within a row, each tile starts where its western neighbour ends, on the same latitudes. */
  lemma TilesRowStep(b: BBox, step: real, r: nat, c: nat)
    requires step > 0.0
    requires r < |Spans(b.south, b.north, step)| && c + 1 < |Spans(b.west, b.east, step)|
    ensures var m, tiles := |Spans(b.west, b.east, step)|, TileGrid(b, step);
      && r * m + c + 1 < |tiles|
      && tiles[r * m + c + 1].west == tiles[r * m + c].east
      && tiles[r * m + c + 1].south == tiles[r * m + c].south
      && tiles[r * m + c + 1].north == tiles[r * m + c].north
  {
    var lats, lons := Spans(b.south, b.north, step), Spans(b.west, b.east, step);
    SpanAt(b.west, b.east, step, c);
    GridAt(lats, lons, r, c);
    GridAt(lats, lons, r, c + 1);
  }

  /** Every row ends at the east edge of the box. */
  lemma TilesRowEnd(b: BBox, step: real, r: nat)
    requires step > 0.0 && b.west < b.east
    requires r < |Spans(b.south, b.north, step)|
    ensures var m, tiles := |Spans(b.west, b.east, step)|, TileGrid(b, step);
      && m > 0 && r * m + m - 1 < |tiles|
      && tiles[r * m + m - 1].east == b.east
  {
    var lats, lons := Spans(b.south, b.north, step), Spans(b.west, b.east, step);
    SpansEmpty(b.west, b.east, step);
    SpanAt(b.west, b.east, step, |lons| - 1);
    GridAt(lats, lons, r, |lons| - 1);
  }

  /** Each row starts where the row below it ends. */
  lemma TilesRowAbove(b: BBox, step: real, r: nat, c: nat)
    requires step > 0.0
    requires r + 1 < |Spans(b.south, b.north, step)| && c < |Spans(b.west, b.east, step)|
    ensures var m, tiles := |Spans(b.west, b.east, step)|, TileGrid(b, step);
      && (r + 1) * m + c < |tiles|
      && tiles[(r + 1) * m + c].south == tiles[r * m + c].north
      && tiles[(r + 1) * m + c].west == tiles[r * m + c].west
  {
    var lats, lons := Spans(b.south, b.north, step), Spans(b.west, b.east, step);
    SpanAt(b.south, b.north, step, r);
    GridAt(lats, lons, r, c);
    GridAt(lats, lons, r + 1, c);
  }

  predicate Contains(t: BBox, y: real, x: real) {
    t.south <= y <= t.north && t.west <= x <= t.east
  }

  /** No gaps: every point of the box lies in some tile. */
  lemma TilesCoverBox(b: BBox, step: real, y: real, x: real)
    requires step > 0.0 && b.south < b.north && b.west < b.east
    requires b.south <= y <= b.north && b.west <= x <= b.east
    ensures exists k :: 0 <= k < |TileGrid(b, step)| && Contains(TileGrid(b, step)[k], y, x)
  {
    var lats, lons := Spans(b.south, b.north, step), Spans(b.west, b.east, step);
    SpansCover(b.south, b.north, step, y);
    SpansCover(b.west, b.east, step, x);
    var r :| 0 <= r < |lats| && lats[r].0 <= y <= lats[r].1;
    var c :| 0 <= c < |lons| && lons[c].0 <= x <= lons[c].1;
    GridAt(lats, lons, r, c);
    assert Contains(TileGrid(b, step)[r * |lons| + c], y, x);
  }

  /** No overlap: two different tiles share at most an edge; a later tile lies
      entirely north of an earlier one, or in the same row entirely east of it. */
  lemma TilesDisjoint(b: BBox, step: real, k1: nat, k2: nat)
    requires step > 0.0 && k1 < k2 < |TileGrid(b, step)|
    ensures var t1, t2 := TileGrid(b, step)[k1], TileGrid(b, step)[k2];
      t1.north <= t2.south || (t1.south == t2.south && t1.east <= t2.west)
  {
    var m := |Spans(b.west, b.east, step)|;
    var r1, c1 := TileIndex(b, step, k1);
    var r2, c2 := TileIndex(b, step, k2);
    RowMajorOrder(r1, c1, r2, c2, m);
    if r1 == r2 {
      SpansOrdered(b.west, b.east, step, c1, c2);
    } else {
      SpansOrdered(b.south, b.north, step, r1, r2);
    }
  }
}
