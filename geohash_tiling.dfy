/** Tiling a bounding box with hashes (`Geohash.kt`): `coverBoundingBoxLongs`
    steps a grid of points over the box one cell apart and adds the word of
    every point to an insertion-ordered set; `coverBoundingBoxMaxHashes` looks
    for the longest hash length whose tiling stays within a budget. Doubles
    are exact reals here, so the steps land exactly `k * step` from the
    start. */
module GeohashTiling {
  import opened Wrappers
  import opened GeohashInternal
  import opened Bisection
  import opened Longs
  import opened GeohashCodec
  import opened GeohashText
  import opened Coverages
  import opened GeohashCover

  /** How often `while (x <= end) { ...; x += step }` runs from `start`. */
  function TickCount(start: real, end: real, step: real): nat
    requires step > 0.0
  {
    if start > end then 0 else ((end - start) / step).Floor + 1
  }

  /** One step forward leaves one run fewer. */
  lemma StepDown(start: real, end: real, step: real)
    requires step > 0.0 && start <= end
    ensures TickCount(start + step, end, step) == TickCount(start, end, step) - 1
  {
    var q := (end - start) / step;
    assert q * step == end - start;
    if start + step <= end {
      Cancel(end - (start + step), q - 1.0, step);
      assert (q - 1.0).Floor == q.Floor - 1;
    } else {
      assert q * step < 1.0 * step;
      assert 0.0 <= q < 1.0;
    }
  }

  lemma Cancel(x: real, a: real, s: real)
    requires s > 0.0 && x == a * s
    ensures x / s == a
  {
  }

  /** The values `x` takes in `while (x <= end) { ...; x += step }`. */
  function Ticks(start: real, end: real, step: real): (r: seq<real>)
    requires step > 0.0
    ensures |r| == TickCount(start, end, step)
    decreases TickCount(start, end, step)
  {
    if start > end then []
    else
      StepDown(start, end, step);
      [start] + Ticks(start + step, end, step)
  }

  /** The first value, then the values from one step on. */
  lemma TicksCons(start: real, end: real, step: real)
    requires step > 0.0 && start <= end
    ensures Ticks(start, end, step) == [start] + Ticks(start + step, end, step)
  {
  }

  /** The value of `x` after `k` runs of `x += step`. */
  function TickOf(start: real, step: real, k: nat): real
  {
    start + k as real * step
  }

  /** The loop visits `start`, `start + step`, ... and stays at or below
      `end`... */
  lemma {:induction false} TickAt(start: real, end: real, step: real, k: nat)
    requires step > 0.0 && k < |Ticks(start, end, step)|
    ensures Ticks(start, end, step)[k] == TickOf(start, step, k)
    ensures Ticks(start, end, step)[k] <= end
    decreases k
  {
    TicksCons(start, end, step);
    if k == 0 {
      ZeroTick(start, step);
    } else {
      TickAt(start + step, end, step, k - 1);
      ShiftTick(start, step, k);
    }
  }

  /** ...and its next value would overshoot `end`. */
  lemma {:induction false} TicksOvershoot(start: real, end: real, step: real)
    requires step > 0.0
    ensures TickOf(start, step, |Ticks(start, end, step)|) > end
    decreases TickCount(start, end, step)
  {
    if start <= end {
      StepDown(start, end, step);
      TicksOvershoot(start + step, end, step);
      ShiftTick(start, step, |Ticks(start, end, step)|);
    } else {
      ZeroTick(start, step);
    }
  }

  /** So the `k`-th step is visited exactly when it is at or below `end`. */
  lemma TickIndex(start: real, end: real, step: real, k: nat)
    requires step > 0.0
    ensures TickOf(start, step, k) <= end <==> k < |Ticks(start, end, step)|
    ensures k < |Ticks(start, end, step)| ==> Ticks(start, end, step)[k] == TickOf(start, step, k)
  {
    TicksOvershoot(start, end, step);
    if k < |Ticks(start, end, step)| {
      TickAt(start, end, step, k);
    } else {
      TickMonotone(start, step, |Ticks(start, end, step)|, k);
    }
  }

  lemma ShiftTick(start: real, step: real, k: nat)
    requires k >= 1
    ensures TickOf(start + step, step, k - 1) == TickOf(start, step, k)
  {
  }

  lemma ZeroTick(start: real, step: real)
    ensures TickOf(start, step, 0) == start
  {
  }

  lemma TickMonotone(start: real, step: real, a: nat, b: nat)
    requires step > 0.0 && a <= b
    ensures TickOf(start, step, a) <= TickOf(start, step, b)
  {
    assert (b - a) as real * step >= 0.0;
  }

  /** The words of one row: latitude fixed, the longitudes wrapped by
      `to180`. */
  function Row(latitude: real, lons: seq<real>, length: int): seq<Long>
  {
    seq(|lons|, k requires 0 <= k < |lons| => EncodeWord(latitude, To180(lons[k]), length))
  }

  /** The words of one column: longitude fixed. */
  function Column(lats: seq<real>, longitude: real, length: int): seq<Long>
  {
    seq(|lats|, k requires 0 <= k < |lats| => EncodeWord(lats[k], longitude, length))
  }

  /** The words of the grid, row after row from the bottom. */
  function Grid(lats: seq<real>, lons: seq<real>, length: int): seq<Long>
  {
    if lats == [] then [] else Grid(lats[..|lats| - 1], lons, length) + Row(lats[|lats| - 1], lons, length)
  }

  lemma RowSnoc(latitude: real, lons: seq<real>, lon: real, length: int)
    ensures Row(latitude, lons + [lon], length) == Row(latitude, lons, length) + [EncodeWord(latitude, To180(lon), length)]
  {
  }

  lemma ColumnSnoc(lats: seq<real>, lat: real, longitude: real, length: int)
    ensures Column(lats + [lat], longitude, length) == Column(lats, longitude, length) + [EncodeWord(lat, longitude, length)]
  {
  }

  /** Moving the loop variable one step on moves one tick to the visited
      part. */
  lemma TicksSnoc(done: seq<real>, start: real, x: real, end: real, step: real)
    requires step > 0.0 && x <= end
    requires done + Ticks(x, end, step) == Ticks(start, end, step)
    ensures (done + [x]) + Ticks(x + step, end, step) == Ticks(start, end, step)
  {
    assert Ticks(x, end, step) == [x] + Ticks(x + step, end, step);
    assert (done + [x]) + Ticks(x + step, end, step) == done + ([x] + Ticks(x + step, end, step));
  }

  /** Adding `xs` and then `x` is adding `xs + [x]`. */
  lemma AddAllSnoc<T>(s: seq<T>, xs: seq<T>, x: T)
    ensures AddAll(s, xs + [x]) == AddOne(AddAll(s, xs), x)
  {
    assert (xs + [x])[..|xs|] == xs;
  }

  /** The inner loop of the grid, and the loop along the top edge: walk the
      longitudes from `start` to `end` and add the word of every point of the
      row to the set. */
  method AddRow(hashes0: seq<Long>, latitude: real, start: real, end: real, step: real, length: int)
    returns (hashes: seq<Long>)
    requires step > 0.0
    ensures hashes == AddAll(hashes0, Row(latitude, Ticks(start, end, step), length))
  {
    hashes := hashes0;
    var lon := start;
    ghost var done: seq<real> := [];
    while lon <= end
      invariant done + Ticks(lon, end, step) == Ticks(start, end, step)
      invariant hashes == AddAll(hashes0, Row(latitude, done, length))
      decreases TickCount(lon, end, step)
    {
      var word := EncodeToLong(latitude, To180(lon), length);
      RowSnoc(latitude, done, lon, length);
      AddAllSnoc(hashes0, Row(latitude, done, length), word);
      hashes := AddOne(hashes, word);
      TicksSnoc(done, start, lon, end, step);
      done := done + [lon];
      lon := lon + step;
    }
    assert done == Ticks(start, end, step);
  }

  /** The loop along the right edge: walk the latitudes and add the word of
      every point of the column. */
  method AddColumn(hashes0: seq<Long>, longitude: real, start: real, end: real, step: real, length: int)
    returns (hashes: seq<Long>)
    requires step > 0.0
    ensures hashes == AddAll(hashes0, Column(Ticks(start, end, step), longitude, length))
  {
    hashes := hashes0;
    var lat := start;
    ghost var done: seq<real> := [];
    while lat <= end
      invariant done + Ticks(lat, end, step) == Ticks(start, end, step)
      invariant hashes == AddAll(hashes0, Column(done, longitude, length))
      decreases TickCount(lat, end, step)
    {
      var word := EncodeToLong(lat, longitude, length);
      ColumnSnoc(done, lat, longitude, length);
      AddAllSnoc(hashes0, Column(done, longitude, length), word);
      hashes := AddOne(hashes, word);
      TicksSnoc(done, start, lat, end, step);
      done := done + [lat];
      lat := lat + step;
    }
    assert done == Ticks(start, end, step);
  }

  lemma GridSnoc(lats: seq<real>, lat: real, lons: seq<real>, length: int)
    ensures Grid(lats + [lat], lons, length) == Grid(lats, lons, length) + Row(lat, lons, length)
  {
    assert (lats + [lat])[..|lats|] == lats;
  }

  /** The grid holds the word of every pairing of a latitude with a
      longitude... */
  lemma {:induction false} GridHas(lats: seq<real>, lons: seq<real>, length: int, i: nat, j: nat)
    requires i < |lats| && j < |lons|
    ensures EncodeWord(lats[i], To180(lons[j]), length) in Grid(lats, lons, length)
    decreases |lats|
  {
    var n := |lats| - 1;
    var x := EncodeWord(lats[i], To180(lons[j]), length);
    if i < n {
      assert lats[..n][i] == lats[i];
      GridHas(lats[..n], lons, length, i, j);
    } else {
      assert Row(lats[n], lons, length)[j] == x;
    }
  }

  /** ...and nothing else. */
  lemma {:induction false} GridOnly(lats: seq<real>, lons: seq<real>, length: int, x: Long)
    requires x in Grid(lats, lons, length)
    ensures exists i, j | 0 <= i < |lats| && 0 <= j < |lons| :: x == EncodeWord(lats[i], To180(lons[j]), length)
    decreases |lats|
  {
    var n := |lats| - 1;
    var init := lats[..n];
    if x in Grid(init, lons, length) {
      GridOnly(init, lons, length, x);
      var i, j :| 0 <= i < |init| && 0 <= j < |lons| && x == EncodeWord(init[i], To180(lons[j]), length);
      assert lats[i] == init[i];
    } else {
      assert x in Row(lats[n], lons, length);
      var j :| 0 <= j < |lons| && Row(lats[n], lons, length)[j] == x;
      assert x == EncodeWord(lats[n], To180(lons[j]), length);
    }
  }

  /** In terms of the steps: a grid word is the word of the point `i` steps
      up from the bottom edge and `j` steps east of the left edge, for any
      `i` and `j` that stay inside the box. */
  lemma GridWords(top: real, bottom: real, left: real, right: real, width: real, height: real, length: int, x: Long)
    requires width > 0.0 && height > 0.0
    ensures x in Grid(Ticks(bottom, top, height), Ticks(left, right, width), length)
      <==> exists i: nat, j: nat :: GridPoint(x, top, bottom, left, right, width, height, length, i, j)
  {
    var lats := Ticks(bottom, top, height);
    var lons := Ticks(left, right, width);
    if x in Grid(lats, lons, length) {
      GridOnly(lats, lons, length, x);
      var i, j :| 0 <= i < |lats| && 0 <= j < |lons| && x == EncodeWord(lats[i], To180(lons[j]), length);
      TickIndex(bottom, top, height, i);
      TickIndex(left, right, width, j);
      assert GridPoint(x, top, bottom, left, right, width, height, length, i, j);
    }
    if exists i: nat, j: nat :: GridPoint(x, top, bottom, left, right, width, height, length, i, j) {
      var i: nat, j: nat :| GridPoint(x, top, bottom, left, right, width, height, length, i, j);
      TickIndex(bottom, top, height, i);
      TickIndex(left, right, width, j);
      GridHas(lats, lons, length, i, j);
    }
  }

  /** `x` is the word of the grid point `i` steps up and `j` steps east. */
  predicate GridPoint(x: Long, top: real, bottom: real, left: real, right: real, width: real, height: real, length: int,
    i: nat, j: nat)
  {
    TickOf(bottom, height, i) <= top && TickOf(left, width, j) <= right
    && x == EncodeWord(TickOf(bottom, height, i), To180(TickOf(left, width, j)), length)
  }

  /** The right edge holds the word of every latitude step at the right
      edge, and nothing else. */
  lemma ColumnWords(top: real, bottom: real, right: real, height: real, length: int, x: Long)
    requires height > 0.0
    ensures x in Column(Ticks(bottom, top, height), To180(right), length)
      <==> exists i: nat :: EdgePoint(x, bottom, top, height, EncodeWord(TickOf(bottom, height, i), To180(right), length), i)
  {
    var lats := Ticks(bottom, top, height);
    if x in Column(lats, To180(right), length) {
      var i :| 0 <= i < |lats| && Column(lats, To180(right), length)[i] == x;
      TickIndex(bottom, top, height, i);
      assert EdgePoint(x, bottom, top, height, EncodeWord(TickOf(bottom, height, i), To180(right), length), i);
    }
    if exists i: nat :: EdgePoint(x, bottom, top, height, EncodeWord(TickOf(bottom, height, i), To180(right), length), i) {
      var i: nat :| EdgePoint(x, bottom, top, height, EncodeWord(TickOf(bottom, height, i), To180(right), length), i);
      TickIndex(bottom, top, height, i);
      assert Column(lats, To180(right), length)[i] == x;
    }
  }

  /** The top edge holds the word of every longitude step along the top
      edge, and nothing else. */
  lemma RowWords(top: real, left: real, right: real, width: real, length: int, x: Long)
    requires width > 0.0
    ensures x in Row(top, Ticks(left, right, width), length)
      <==> exists j: nat :: EdgePoint(x, left, right, width, EncodeWord(top, To180(TickOf(left, width, j)), length), j)
  {
    var lons := Ticks(left, right, width);
    if x in Row(top, lons, length) {
      var j :| 0 <= j < |lons| && Row(top, lons, length)[j] == x;
      TickIndex(left, right, width, j);
      assert EdgePoint(x, left, right, width, EncodeWord(top, To180(TickOf(left, width, j)), length), j);
    }
    if exists j: nat :: EdgePoint(x, left, right, width, EncodeWord(top, To180(TickOf(left, width, j)), length), j) {
      var j: nat :| EdgePoint(x, left, right, width, EncodeWord(top, To180(TickOf(left, width, j)), length), j);
      TickIndex(left, right, width, j);
      assert Row(top, lons, length)[j] == x;
    }
  }

  /** `x` is `word`, the word of the `k`-th step from `start`, which stays at
      or below `end`. */
  predicate EdgePoint(x: Long, start: real, end: real, step: real, word: Long, k: nat)
  {
    TickOf(start, step, k) <= end && x == word
  }

  /** The longitude range the tiling walks: a box whose right edge is west
      of its left edge crosses the antimeridian, so the right edge moves a
      full turn east; a box wider than the world becomes the world. */
  function Longitudes(topLeftLon: real, bottomRightLon: real): (real, real)
  {
    var diff := bottomRightLon - topLeftLon;
    if diff < 0.0 then (topLeftLon, bottomRightLon + 360.0)
    else if diff > 360.0 then (-180.0, 180.0)
    else (topLeftLon, bottomRightLon)
  }

  /** Every word the tiling adds, in order: the grid, the right edge, the top
      edge, and the top-right corner. */
  function Visits(topLeftLat: real, bottomRightLat: real, left: real, right: real, width: real, height: real, length: int)
    : seq<Long>
    requires width > 0.0 && height > 0.0
  {
    var lats := Ticks(bottomRightLat, topLeftLat, height);
    var lons := Ticks(left, right, width);
    Grid(lats, lons, length) + Column(lats, To180(right), length) + Row(topLeftLat, lons, length)
      + [EncodeWord(topLeftLat, To180(right), length)]
  }

  /** The visited words collected into a set, with its size and the ratio
      of the area of its cells to the area of the box. */
  function Tally(visits: seq<Long>, width: real, height: real, area: real): CoverageLongs
    requires visits != [] && width > 0.0 && height > 0.0
  {
    var hashes := AddAll([], visits);
    AddAllNonEmpty(visits);
    PositiveArea(|hashes|, width, height);
    CoverageLongs(hashes, |hashes|, RatioOf(CellsArea(|hashes|, width, height), area))
  }

  lemma AddAllNonEmpty<T>(xs: seq<T>)
    requires xs != []
    ensures |AddAll([], xs)| > 0
  {
    AddAllFacts([], xs);
    assert xs[0] in AddAll([], xs);
  }

  /** The area of `n` cells, `n * width * height` as the code multiplies. */
  function CellsArea(n: nat, width: real, height: real): real
  {
    n as real * width * height
  }

  lemma PositiveArea(n: nat, width: real, height: real)
    requires n > 0 && width > 0.0 && height > 0.0
    ensures CellsArea(n, width, height) > 0.0
  {
    assert n as real * width > 0.0;
  }

  /** The tally of words already collected into `hashes`. */
  lemma TallyOf(visits: seq<Long>, hashes: seq<Long>, width: real, height: real, area: real)
    requires visits != [] && width > 0.0 && height > 0.0 && hashes == AddAll([], visits)
    ensures |hashes| > 0 && CellsArea(|hashes|, width, height) > 0.0
    ensures Tally(visits, width, height, area)
      == CoverageLongs(hashes, |hashes|, RatioOf(CellsArea(|hashes|, width, height), area))
  {
    AddAllNonEmpty(visits);
    PositiveArea(|hashes|, width, height);
  }

  /** The area of a box `span` degrees wide and `extent` degrees high. */
  function Area(span: real, extent: real): real
  {
    span * extent
  }

  /** What `coverBoundingBoxLongs` returns: the failure of either
      `require`, or the tally of the visited words. */
  function CoverLongs(topLeftLat: real, topLeftLon: real, bottomRightLat: real, bottomRightLon: real, length: int)
    : Result<CoverageLongs>
  {
    if topLeftLat < bottomRightLat then Fail("topLeftLat must be >= bottomRightLat")
    else if length <= 0 then Fail("length must be greater than zero")
    else
      var (left, right) := Longitudes(topLeftLon, bottomRightLon);
      CachedWidth(length);
      CachedHeight(length);
      var width := WidthDegrees(length).value;
      var height := HeightDegrees(length).value;
      Ok(Tally(Visits(topLeftLat, bottomRightLat, left, right, width, height, length), width, height,
        Area(right - left, topLeftLat - bottomRightLat)))
  }

  /** The `run` block: the grid of rows from the bottom edge up. */
  method AddGrid(hashes0: seq<Long>, bottom: real, top: real, left: real, right: real, width: real, height: real, length: int)
    returns (hashes: seq<Long>)
    requires width > 0.0 && height > 0.0
    ensures hashes == AddAll(hashes0, Grid(Ticks(bottom, top, height), Ticks(left, right, width), length))
  {
    hashes := hashes0;
    ghost var lons := Ticks(left, right, width);
    var lat := bottom;
    ghost var done: seq<real> := [];
    while lat <= top
      invariant done + Ticks(lat, top, height) == Ticks(bottom, top, height)
      invariant hashes == AddAll(hashes0, Grid(done, lons, length))
      decreases TickCount(lat, top, height)
    {
      hashes := AddRow(hashes, lat, left, right, width, length);
      AddAllConcat(hashes0, Grid(done, lons, length), Row(lat, lons, length));
      GridSnoc(done, lat, lons, length);
      TicksSnoc(done, bottom, lat, top, height);
      done := done + [lat];
      lat := lat + height;
    }
    assert done == Ticks(bottom, top, height);
  }

  /** Unfolding `CoverLongs` for arguments that pass both checks. */
  lemma CoverLongsOf(topLeftLat: real, topLeftLon: real, bottomRightLat: real, bottomRightLon: real, length: int)
    requires topLeftLat >= bottomRightLat && length > 0
    ensures WidthDegrees(length).value > 0.0 && HeightDegrees(length).value > 0.0
    ensures var (left, right) := Longitudes(topLeftLon, bottomRightLon);
      var width := WidthDegrees(length).value;
      var height := HeightDegrees(length).value;
      CoverLongs(topLeftLat, topLeftLon, bottomRightLat, bottomRightLon, length)
        == Ok(Tally(Visits(topLeftLat, bottomRightLat, left, right, width, height, length), width, height,
          Area(right - left, topLeftLat - bottomRightLat)))
  {
    CachedWidth(length);
    CachedHeight(length);
  }

  /** `coverBoundingBoxLongs(topLeftLat, topLeftLon, bottomRightLat,
      bottomRightLon, length)`. */
  method CoverBoundingBoxLongs(topLeftLat: real, topLeftLon: real, bottomRightLat: real, bottomRightLon: real, length: int)
    returns (r: Result<CoverageLongs>)
    ensures r == CoverLongs(topLeftLat, topLeftLon, bottomRightLat, bottomRightLon, length)
  {
    if topLeftLat < bottomRightLat {
      return Fail("topLeftLat must be >= bottomRightLat");
    }
    if length <= 0 {
      return Fail("length must be greater than zero");
    }
    var newTopLeftLon := topLeftLon;
    var newBottomRightLon := bottomRightLon;
    CachedWidth(length);
    CachedHeight(length);
    var width := WidthDegrees(length).value;
    var height := HeightDegrees(length).value;
    var diff := newBottomRightLon - newTopLeftLon;
    if diff < 0.0 {
      newBottomRightLon := newBottomRightLon + 360.0;
      diff := newBottomRightLon - newTopLeftLon;
    } else if diff > 360.0 {
      newTopLeftLon := -180.0;
      newBottomRightLon := 180.0;
      diff := 360.0;
    }
    assert (newTopLeftLon, newBottomRightLon) == Longitudes(topLeftLon, bottomRightLon);
    var coverage := Tile(topLeftLat, bottomRightLat, newTopLeftLon, newBottomRightLon, diff, width, height, length);
    CoverLongsOf(topLeftLat, topLeftLon, bottomRightLat, bottomRightLon, length);
    return Ok(coverage);
  }

  /** The body of `coverBoundingBoxLongs` once the longitudes are settled:
      the grid, the right edge, the top edge and the corner go into the set,
      and the set is tallied. */
  method Tile(topLeftLat: real, bottomRightLat: real, left: real, right: real, diff: real, width: real, height: real,
    length: int)
    returns (c: CoverageLongs)
    requires width > 0.0 && height > 0.0 && diff == right - left
    ensures c == Tally(Visits(topLeftLat, bottomRightLat, left, right, width, height, length), width, height,
      Area(right - left, topLeftLat - bottomRightLat))
  {
    ghost var lats := Ticks(bottomRightLat, topLeftLat, height);
    ghost var lons := Ticks(left, right, width);
    ghost var grid := Grid(lats, lons, length);
    ghost var column := Column(lats, To180(right), length);
    ghost var row := Row(topLeftLat, lons, length);

    var hashes := AddGrid([], bottomRightLat, topLeftLat, left, right, width, height, length);
    hashes := AddColumn(hashes, To180(right), bottomRightLat, topLeftLat, height, length);
    AddAllConcat([], grid, column);
    hashes := AddRow(hashes, topLeftLat, left, right, width, length);
    AddAllConcat([], grid + column, row);
    var corner := EncodeToLong(topLeftLat, To180(right), length);
    AddAllSnoc([], grid + column + row, corner);
    hashes := AddOne(hashes, corner);

    ghost var visits := Visits(topLeftLat, bottomRightLat, left, right, width, height, length);
    assert hashes == AddAll([], visits);
    var areaDegrees := Area(diff, topLeftLat - bottomRightLat);
    TallyOf(visits, hashes, width, height, areaDegrees);
    var coverageAreaDegrees := CellsArea(|hashes|, width, height);
    var ratio := RatioOf(coverageAreaDegrees, areaDegrees);
    c := CoverageLongs(hashes, |hashes|, ratio);
  }

  /** A word the tiling adds: a grid point, a latitude step on the right
      edge, a longitude step on the top edge, or the top-right corner. */
  ghost predicate Visited(x: Long, top: real, bottom: real, left: real, right: real, width: real, height: real, length: int)
  {
    (exists i: nat, j: nat :: GridPoint(x, top, bottom, left, right, width, height, length, i, j))
    || (exists i: nat :: EdgePoint(x, bottom, top, height, EncodeWord(TickOf(bottom, height, i), To180(right), length), i))
    || (exists j: nat :: EdgePoint(x, left, right, width, EncodeWord(top, To180(TickOf(left, width, j)), length), j))
    || x == EncodeWord(top, To180(right), length)
  }

  lemma VisitsWords(top: real, bottom: real, left: real, right: real, width: real, height: real, length: int, x: Long)
    requires width > 0.0 && height > 0.0
    ensures x in Visits(top, bottom, left, right, width, height, length)
      <==> Visited(x, top, bottom, left, right, width, height, length)
  {
    GridWords(top, bottom, left, right, width, height, length, x);
    ColumnWords(top, bottom, right, height, length, x);
    RowWords(top, left, right, width, length, x);
  }

  /** The set `coverBoundingBoxLongs` returns holds exactly the visited
      words, each once, in the order of their first visit; `count` is its
      size, and it is never empty. */
  lemma CoverLongsMembers(topLeftLat: real, topLeftLon: real, bottomRightLat: real, bottomRightLon: real, length: int)
    requires CoverLongs(topLeftLat, topLeftLon, bottomRightLat, bottomRightLon, length).Ok?
    ensures var c := CoverLongs(topLeftLat, topLeftLon, bottomRightLat, bottomRightLon, length).value;
      c.count == |c.hashes| > 0 && NoDuplicates(c.hashes)
    ensures var c := CoverLongs(topLeftLat, topLeftLon, bottomRightLat, bottomRightLon, length).value;
      var (left, right) := Longitudes(topLeftLon, bottomRightLon);
      forall x :: x in c.hashes <==> Visited(x, topLeftLat, bottomRightLat, left, right,
        WidthDegrees(length).value, HeightDegrees(length).value, length)
  {
    CoverLongsOf(topLeftLat, topLeftLon, bottomRightLat, bottomRightLon, length);
    var (left, right) := Longitudes(topLeftLon, bottomRightLon);
    var width := WidthDegrees(length).value;
    var height := HeightDegrees(length).value;
    var visits := Visits(topLeftLat, bottomRightLat, left, right, width, height, length);
    var hashes := AddAll([], visits);
    AddAllFacts([], visits);
    TallyOf(visits, hashes, width, height, Area(right - left, topLeftLat - bottomRightLat));
    forall x
      ensures x in hashes <==> Visited(x, topLeftLat, bottomRightLat, left, right, width, height, length)
    {
      VisitsWords(topLeftLat, bottomRightLat, left, right, width, height, length, x);
    }
  }

  /** `coverBoundingBoxLongs` throws exactly when the top edge is below the
      bottom edge or the length is not positive, the latitude check first. */
  lemma CoverLongsRejects(topLeftLat: real, topLeftLon: real, bottomRightLat: real, bottomRightLon: real, length: int)
    ensures CoverLongs(topLeftLat, topLeftLon, bottomRightLat, bottomRightLon, length).Fail?
      <==> topLeftLat < bottomRightLat || length <= 0
    ensures topLeftLat < bottomRightLat ==>
      CoverLongs(topLeftLat, topLeftLon, bottomRightLat, bottomRightLon, length).reason == "topLeftLat must be >= bottomRightLat"
    ensures topLeftLat >= bottomRightLat && length <= 0 ==>
      CoverLongs(topLeftLat, topLeftLon, bottomRightLat, bottomRightLon, length).reason == "length must be greater than zero"
  {
  }

  /** The set always holds the word of the top-right corner; for a box no
      wider than the world whose right edge lies in [-180, 180], that is the
      word of the corner as given. */
  lemma CoverLongsCorner(topLeftLat: real, topLeftLon: real, bottomRightLat: real, bottomRightLon: real, length: int)
    requires CoverLongs(topLeftLat, topLeftLon, bottomRightLat, bottomRightLon, length).Ok?
    ensures EncodeWord(topLeftLat, To180(Longitudes(topLeftLon, bottomRightLon).1), length)
      in CoverLongs(topLeftLat, topLeftLon, bottomRightLat, bottomRightLon, length).value.hashes
    ensures 0.0 <= bottomRightLon - topLeftLon <= 360.0 && -180.0 <= bottomRightLon <= 180.0 ==>
      EncodeWord(topLeftLat, bottomRightLon, length) in CoverLongs(topLeftLat, topLeftLon, bottomRightLat, bottomRightLon, length).value.hashes
  {
    CoverLongsMembers(topLeftLat, topLeftLon, bottomRightLat, bottomRightLon, length);
    if -180.0 <= bottomRightLon <= 180.0 {
      To180Identity(bottomRightLon);
    }
  }

  /** For a length from 1 to 12 every word carries that length in its low
      four bits, so the set converts to strings of that length. */
  lemma CoverLongsNibbles(topLeftLat: real, topLeftLon: real, bottomRightLat: real, bottomRightLon: real, length: int)
    requires CoverLongs(topLeftLat, topLeftLon, bottomRightLat, bottomRightLon, length).Ok?
    requires length <= MAX_HASH_LENGTH
    ensures var c := CoverLongs(topLeftLat, topLeftLon, bottomRightLat, bottomRightLon, length).value;
      forall i | 0 <= i < |c.hashes| :: LowerNibble(c.hashes[i]) == length
  {
    CoverLongsMembers(topLeftLat, topLeftLon, bottomRightLat, bottomRightLon, length);
    var c := CoverLongs(topLeftLat, topLeftLon, bottomRightLat, bottomRightLon, length).value;
    forall i | 0 <= i < |c.hashes|
      ensures LowerNibble(c.hashes[i]) == length
    {
      var lat, lon := VisitedWord(c.hashes[i], topLeftLat, bottomRightLat, Longitudes(topLeftLon, bottomRightLon).0,
        Longitudes(topLeftLon, bottomRightLon).1, WidthDegrees(length).value, HeightDegrees(length).value, length);
      EncodeWordNibble(lat, To180(lon), length);
    }
  }

  /** Every visited word is the word of a point of the box: a latitude from
      the bottom to the top edge and a longitude from the left to the right
      edge (or the right edge itself, when it lies west of the left). */
  lemma VisitedWord(x: Long, top: real, bottom: real, left: real, right: real, width: real, height: real, length: int)
    returns (lat: real, lon: real)
    requires width > 0.0 && height > 0.0 && bottom <= top
    requires Visited(x, top, bottom, left, right, width, height, length)
    ensures bottom <= lat <= top && (left <= lon <= right || lon == right)
    ensures x == EncodeWord(lat, To180(lon), length)
  {
    if exists i: nat, j: nat :: GridPoint(x, top, bottom, left, right, width, height, length, i, j) {
      var i: nat, j: nat :| GridPoint(x, top, bottom, left, right, width, height, length, i, j);
      TickMonotone(bottom, height, 0, i);
      TickMonotone(left, width, 0, j);
      ZeroTick(bottom, height);
      ZeroTick(left, width);
      lat, lon := TickOf(bottom, height, i), TickOf(left, width, j);
    } else if exists i: nat :: EdgePoint(x, bottom, top, height, EncodeWord(TickOf(bottom, height, i), To180(right), length), i) {
      var i: nat :| EdgePoint(x, bottom, top, height, EncodeWord(TickOf(bottom, height, i), To180(right), length), i);
      TickMonotone(bottom, height, 0, i);
      ZeroTick(bottom, height);
      lat, lon := TickOf(bottom, height, i), right;
    } else if exists j: nat :: EdgePoint(x, left, right, width, EncodeWord(top, To180(TickOf(left, width, j)), length), j) {
      var j: nat :| EdgePoint(x, left, right, width, EncodeWord(top, To180(TickOf(left, width, j)), length), j);
      TickMonotone(left, width, 0, j);
      ZeroTick(left, width);
      lat, lon := top, TickOf(left, width, j);
    } else {
      lat, lon := top, right;
    }
  }

  /** The ratio is the area of the set's cells over the area of the box:
      infinite for a box of no area. */
  lemma CoverLongsRatio(topLeftLat: real, topLeftLon: real, bottomRightLat: real, bottomRightLon: real, length: int)
    requires CoverLongs(topLeftLat, topLeftLon, bottomRightLat, bottomRightLon, length).Ok?
    ensures var c := CoverLongs(topLeftLat, topLeftLon, bottomRightLat, bottomRightLon, length).value;
      var lons := Longitudes(topLeftLon, bottomRightLon);
      RatioMeans(c.ratio, CellsArea(c.count, WidthDegrees(length).value, HeightDegrees(length).value),
        Area(lons.1 - lons.0, topLeftLat - bottomRightLat))
  {
    var lons := Longitudes(topLeftLon, bottomRightLon);
    var width := WidthDegrees(length).value;
    var height := HeightDegrees(length).value;
    var area := Area(lons.1 - lons.0, topLeftLat - bottomRightLat);
    var c := CoverLongs(topLeftLat, topLeftLon, bottomRightLat, bottomRightLon, length).value;
    assert c.count >= 0 && CellsArea(c.count, width, height) > 0.0
      && c.ratio == RatioOf(CellsArea(c.count, width, height), area) by {
      CoverLongsOf(topLeftLat, topLeftLon, bottomRightLat, bottomRightLon, length);
      var visits := Visits(topLeftLat, bottomRightLat, lons.0, lons.1, width, height, length);
      TallyOf(visits, AddAll([], visits), width, height, area);
    }
    RatioMeaning(c.ratio, CellsArea(c.count, width, height), area);
  }

  /** `ratio` is `covered / area`: infinite exactly when the area is zero,
      and otherwise a value that times the area gives the covered area. */
  predicate RatioMeans(ratio: Ratio, covered: real, area: real)
  {
    (ratio.Infinite? <==> area == 0.0) && (ratio.Finite? ==> ratio.value * area == covered)
  }

  lemma RatioMeaning(ratio: Ratio, covered: real, area: real)
    requires covered > 0.0 && ratio == RatioOf(covered, area)
    ensures RatioMeans(ratio, covered, area)
  {
  }

  /** `coverBoundingBox(topLeftLat, topLeftLon, bottomRightLat,
      bottomRightLon, length)`: the tiling as a set of strings. */
  function CoverBoundingBox(topLeftLat: real, topLeftLon: real, bottomRightLat: real, bottomRightLon: real, length: int)
    : Result<Coverage>
  {
    var c := CoverLongs(topLeftLat, topLeftLon, bottomRightLat, bottomRightLon, length);
    if c.Fail? then Fail(c.reason) else FromCoverageLongs(c.value)
  }

  /** For a length from 1 to 12 and a box whose top is not below its bottom
      the strings are produced, all of that length, one per word of the
      tiling, and the set reports that length. */
  lemma CoverBoundingBoxStrings(topLeftLat: real, topLeftLon: real, bottomRightLat: real, bottomRightLon: real, length: int)
    requires topLeftLat >= bottomRightLat && 1 <= length <= MAX_HASH_LENGTH
    ensures CoverBoundingBox(topLeftLat, topLeftLon, bottomRightLat, bottomRightLon, length).Ok?
    ensures var h := CoverBoundingBox(topLeftLat, topLeftLon, bottomRightLat, bottomRightLon, length).value;
      |h.hashes| == CoverLongs(topLeftLat, topLeftLon, bottomRightLat, bottomRightLon, length).value.count
      && (forall k | 0 <= k < |h.hashes| :: |h.hashes[k]| == length)
      && h.HashLength() == length
  {
    var c := CoverLongs(topLeftLat, topLeftLon, bottomRightLat, bottomRightLon, length).value;
    CoverLongsNibbles(topLeftLat, topLeftLon, bottomRightLat, bottomRightLon, length);
    CoverLongsMembers(topLeftLat, topLeftLon, bottomRightLat, bottomRightLon, length);
    ConvertedCoverage(c);
    var h := FromCoverageLongs(c).value;
    StringsDistinct(topLeftLat, topLeftLon, bottomRightLat, bottomRightLon, length);
    AddAllDistinct(StringsOf(c.hashes).value);
    forall k | 0 <= k < |h.hashes|
      ensures |h.hashes[k]| == length
    {
      assert h.hashes[k] in h.hashes;
      var i :| 0 <= i < |c.hashes| && LongToString(c.hashes[i]) == Ok(h.hashes[k]);
    }
    HashLengthUniform(h, length);
  }

  /** Different words of the tiling render as different strings, so the
      conversion keeps every one of them. */
  lemma StringsDistinct(topLeftLat: real, topLeftLon: real, bottomRightLat: real, bottomRightLon: real, length: int)
    requires topLeftLat >= bottomRightLat && 1 <= length <= MAX_HASH_LENGTH
    ensures StringsOf(CoverLongs(topLeftLat, topLeftLon, bottomRightLat, bottomRightLon, length).value.hashes).Ok?
    ensures NoDuplicates(StringsOf(CoverLongs(topLeftLat, topLeftLon, bottomRightLat, bottomRightLon, length).value.hashes).value)
  {
    var c := CoverLongs(topLeftLat, topLeftLon, bottomRightLat, bottomRightLon, length).value;
    var (left, right) := Longitudes(topLeftLon, bottomRightLon);
    var width := WidthDegrees(length).value;
    var height := HeightDegrees(length).value;
    CoverLongsOf(topLeftLat, topLeftLon, bottomRightLat, bottomRightLon, length);
    CoverLongsNibbles(topLeftLat, topLeftLon, bottomRightLat, bottomRightLon, length);
    CoverLongsMembers(topLeftLat, topLeftLon, bottomRightLat, bottomRightLon, length);
    ConvertedCoverage(c);
    var strings := StringsOf(c.hashes).value;
    forall i, j | 0 <= i < j < |strings|
      ensures strings[i] != strings[j]
    {
      assert c.hashes[i] in c.hashes && c.hashes[j] in c.hashes;
      var lat1, lon1 := VisitedWord(c.hashes[i], topLeftLat, bottomRightLat, left, right, width, height, length);
      var lat2, lon2 := VisitedWord(c.hashes[j], topLeftLat, bottomRightLat, left, right, width, height, length);
      WordsRenderApart(lat1, To180(lon1), lat2, To180(lon2), length);
    }
  }

  /** Words of one length are equal exactly when their strings are. */
  lemma WordsRenderApart(lat1: real, lon1: real, lat2: real, lon2: real, length: int)
    requires 1 <= length <= MAX_HASH_LENGTH
    ensures LongToString(EncodeWord(lat1, lon1, length)) == LongToString(EncodeWord(lat2, lon2, length))
      <==> EncodeWord(lat1, lon1, length) == EncodeWord(lat2, lon2, length)
  {
    var a := EncodeBits(lat1, lon1, 5 * length);
    var b := EncodeBits(lat2, lon2, 5 * length);
    HashBitsOfHashString(a);
    HashBitsOfHashString(b);
    RenderEncoded(lat1, lon1, length);
    RenderEncoded(lat2, lon2, length);
  }

  /** The length `coverBoundingBoxMaxHashes` starts from: the length of the
      hash both corners share, but at least 1. */
  function StartLength(topLeftLat: real, topLeftLon: real, bottomRightLat: real, bottomRightLon: real): (r: int)
    ensures 1 <= r <= MAX_HASH_LENGTH
  {
    CoverLengthBound(topLeftLat, topLeftLon, bottomRightLat, bottomRightLon);
    var n := CoverLength(topLeftLat, topLeftLon, bottomRightLat, bottomRightLon);
    if n == 0 then 1 else n
  }

  /** The tilings of the box, one per hash length. */
  function Tilings(topLeftLat: real, topLeftLon: real, bottomRightLat: real, bottomRightLon: real)
    : int -> Result<CoverageLongs>
  {
    length => CoverLongs(topLeftLat, topLeftLon, bottomRightLat, bottomRightLon, length)
  }

  /** The loop of `coverBoundingBoxMaxHashes` over the tilings `tiles` from
      `length` on, with `best` the last tiling that stayed within
      `maxHashes`: stop at the first tiling over the budget, or after length
      12. */
  function MaxHashesFrom(tiles: int -> Result<CoverageLongs>, length: int, maxHashes: int, best: Option<CoverageLongs>)
    : Result<Option<CoverageLongs>>
    decreases MAX_HASH_LENGTH + 1 - length
  {
    if length > MAX_HASH_LENGTH then Ok(best)
    else
      var cl := tiles(length);
      if cl.Fail? then Fail(cl.reason)
      else if cl.value.count > maxHashes then Ok(best)
      else MaxHashesFrom(tiles, length + 1, maxHashes, Some(cl.value))
  }

  /** What `coverBoundingBoxMaxHashes` returns. */
  function CoverMaxHashes(topLeftLat: real, topLeftLon: real, bottomRightLat: real, bottomRightLon: real, maxHashes: int)
    : Result<Option<Coverage>>
  {
    var start := StartLength(topLeftLat, topLeftLon, bottomRightLat, bottomRightLon);
    var found := MaxHashesFrom(Tilings(topLeftLat, topLeftLon, bottomRightLat, bottomRightLon), start, maxHashes, None);
    if found.Fail? then Fail(found.reason) else ToCoverage(found.value)
  }

  /** `coverBoundingBoxMaxHashes(topLeftLat, topLeftLon, bottomRightLat,
      bottomRightLon, maxHashes)`. */
  method CoverBoundingBoxMaxHashes(topLeftLat: real, topLeftLon: real, bottomRightLat: real, bottomRightLon: real,
    maxHashes: int)
    returns (r: Result<Option<Coverage>>)
    ensures r == CoverMaxHashes(topLeftLat, topLeftLon, bottomRightLat, bottomRightLon, maxHashes)
  {
    ghost var tiles := Tilings(topLeftLat, topLeftLon, bottomRightLat, bottomRightLon);
    var startLength := HashLengthToCoverBoundingBox(topLeftLat, topLeftLon, bottomRightLat, bottomRightLon);
    if startLength == 0 {
      startLength := 1;
    }
    assert startLength == StartLength(topLeftLat, topLeftLon, bottomRightLat, bottomRightLon);
    var coverageL: Option<CoverageLongs> := None;
    for length := startLength to MAX_HASH_LENGTH + 1
      invariant MaxHashesFrom(tiles, length, maxHashes, coverageL) == MaxHashesFrom(tiles, startLength, maxHashes, None)
    {
      var cl := CoverBoundingBoxLongs(topLeftLat, topLeftLon, bottomRightLat, bottomRightLon, length);
      assert cl == tiles(length);
      if cl.Fail? {
        return Fail(cl.reason);
      }
      if cl.value.count > maxHashes {
        r := ToCoverage(coverageL);
        return;
      }
      coverageL := Some(cl.value);
    }
    r := ToCoverage(coverageL);
  }

  /** From `length` on, with `best` the tiling of the length before, the loop
      over tilings that all succeed returns no tiling exactly when it starts
      without one and the first tiling it makes is over the budget; otherwise
      it returns the tiling of a length `chosen` whose tilings from `length`
      up to `chosen` all stay within the budget, and `chosen` is 12 or its
      next tiling is over it. */
  lemma {:induction false} MaxHashesFromChoice(tiles: int -> Result<CoverageLongs>, length: int, maxHashes: int,
    best: Option<CoverageLongs>)
    returns (chosen: int)
    requires forall k | 1 <= k <= MAX_HASH_LENGTH :: tiles(k).Ok?
    requires 1 <= length <= MAX_HASH_LENGTH + 1
    requires best.Some? ==> (2 <= length && best.value.count <= maxHashes && tiles(length - 1) == Ok(best.value))
    ensures var r := MaxHashesFrom(tiles, length, maxHashes, best);
      r.Ok? && (r.value.None? <==> (best.None? && (length > MAX_HASH_LENGTH || tiles(length).value.count > maxHashes)))
    ensures var r := MaxHashesFrom(tiles, length, maxHashes, best);
      r.Ok? && r.value.Some? ==>
        length - 1 <= chosen <= MAX_HASH_LENGTH && (best.None? ==> length <= chosen)
        && tiles(chosen) == Ok(r.value.value) && r.value.value.count <= maxHashes
        && (forall k | length <= k <= chosen :: tiles(k).value.count <= maxHashes)
        && (chosen < MAX_HASH_LENGTH ==> tiles(chosen + 1).value.count > maxHashes)
    decreases MAX_HASH_LENGTH + 1 - length
  {
    chosen := length - 1;
    if length <= MAX_HASH_LENGTH {
      var cl := tiles(length).value;
      if cl.count <= maxHashes {
        chosen := MaxHashesFromChoice(tiles, length + 1, maxHashes, Some(cl));
      }
    }
  }

  /** For a box whose top is not below its bottom, every length from 1 to 12
      has a tiling. */
  lemma TilingsSucceed(topLeftLat: real, topLeftLon: real, bottomRightLat: real, bottomRightLon: real)
    requires topLeftLat >= bottomRightLat
    ensures forall k | 1 <= k <= MAX_HASH_LENGTH :: Tilings(topLeftLat, topLeftLon, bottomRightLat, bottomRightLon)(k).Ok?
  {
    forall k | 1 <= k <= MAX_HASH_LENGTH
      ensures Tilings(topLeftLat, topLeftLon, bottomRightLat, bottomRightLon)(k).Ok?
    {
      CoverLongsRejects(topLeftLat, topLeftLon, bottomRightLat, bottomRightLon, k);
    }
  }

  /** `coverBoundingBoxMaxHashes` throws exactly when the top lies below the
      bottom. */
  lemma CoverMaxHashesRejects(topLeftLat: real, topLeftLon: real, bottomRightLat: real, bottomRightLon: real,
    maxHashes: int)
    ensures var r := CoverMaxHashes(topLeftLat, topLeftLon, bottomRightLat, bottomRightLon, maxHashes);
      (r.Fail? <==> topLeftLat < bottomRightLat)
      && (topLeftLat < bottomRightLat ==> r.reason == "topLeftLat must be >= bottomRightLat")
  {
    var tiles := Tilings(topLeftLat, topLeftLon, bottomRightLat, bottomRightLon);
    var start := StartLength(topLeftLat, topLeftLon, bottomRightLat, bottomRightLon);
    CoverLongsRejects(topLeftLat, topLeftLon, bottomRightLat, bottomRightLon, start);
    if topLeftLat >= bottomRightLat {
      TilingsSucceed(topLeftLat, topLeftLon, bottomRightLat, bottomRightLon);
      var chosen := MaxHashesFromChoice(tiles, start, maxHashes, None);
      var found := MaxHashesFrom(tiles, start, maxHashes, None);
      if found.value.Some? {
        CoverBoundingBoxStrings(topLeftLat, topLeftLon, bottomRightLat, bottomRightLon, chosen);
        assert CoverLongs(topLeftLat, topLeftLon, bottomRightLat, bottomRightLon, chosen) == Ok(found.value.value);
      }
    }
  }

  /** It returns `null` exactly when the tiling at the start length is
      already over `maxHashes`. */
  lemma CoverMaxHashesNone(topLeftLat: real, topLeftLon: real, bottomRightLat: real, bottomRightLon: real,
    maxHashes: int)
    ensures var r := CoverMaxHashes(topLeftLat, topLeftLon, bottomRightLat, bottomRightLon, maxHashes);
      var start := StartLength(topLeftLat, topLeftLon, bottomRightLat, bottomRightLon);
      var first := CoverLongs(topLeftLat, topLeftLon, bottomRightLat, bottomRightLon, start);
      r == Ok(None) <==> (first.Ok? && first.value.count > maxHashes)
  {
    var tiles := Tilings(topLeftLat, topLeftLon, bottomRightLat, bottomRightLon);
    var start := StartLength(topLeftLat, topLeftLon, bottomRightLat, bottomRightLon);
    CoverLongsRejects(topLeftLat, topLeftLon, bottomRightLat, bottomRightLon, start);
    if topLeftLat >= bottomRightLat {
      TilingsSucceed(topLeftLat, topLeftLon, bottomRightLat, bottomRightLon);
      var chosen := MaxHashesFromChoice(tiles, start, maxHashes, None);
      var found := MaxHashesFrom(tiles, start, maxHashes, None);
      if found.value.Some? {
        CoverBoundingBoxStrings(topLeftLat, topLeftLon, bottomRightLat, bottomRightLon, chosen);
        assert CoverLongs(topLeftLat, topLeftLon, bottomRightLat, bottomRightLon, chosen) == Ok(found.value.value);
      }
    }
  }

  /** Otherwise it returns the tiling at the greatest length from the start
      length on up to which every tiling stays within `maxHashes`: the hashes
      have that length, there are at most `maxHashes` of them, and the next
      length, if there is one below 13, would give more. */
  lemma CoverMaxHashesFound(topLeftLat: real, topLeftLon: real, bottomRightLat: real, bottomRightLon: real,
    maxHashes: int)
    ensures var r := CoverMaxHashes(topLeftLat, topLeftLon, bottomRightLat, bottomRightLon, maxHashes);
      var start := StartLength(topLeftLat, topLeftLon, bottomRightLat, bottomRightLon);
      r.Ok? && r.value.Some? ==>
        var h := r.value.value;
        var n := h.HashLength();
        start <= n <= MAX_HASH_LENGTH && |h.hashes| <= maxHashes
        && CoverBoundingBox(topLeftLat, topLeftLon, bottomRightLat, bottomRightLon, n) == Ok(h)
        && (forall k | start <= k <= n ::
              CoverLongs(topLeftLat, topLeftLon, bottomRightLat, bottomRightLon, k).Ok?
              && CoverLongs(topLeftLat, topLeftLon, bottomRightLat, bottomRightLon, k).value.count <= maxHashes)
        && (n < MAX_HASH_LENGTH ==>
              var next := CoverLongs(topLeftLat, topLeftLon, bottomRightLat, bottomRightLon, n + 1);
              next.Ok? && next.value.count > maxHashes)
  {
    var tiles := Tilings(topLeftLat, topLeftLon, bottomRightLat, bottomRightLon);
    var start := StartLength(topLeftLat, topLeftLon, bottomRightLat, bottomRightLon);
    var r := CoverMaxHashes(topLeftLat, topLeftLon, bottomRightLat, bottomRightLon, maxHashes);
    CoverLongsRejects(topLeftLat, topLeftLon, bottomRightLat, bottomRightLon, start);
    if topLeftLat >= bottomRightLat {
      TilingsSucceed(topLeftLat, topLeftLon, bottomRightLat, bottomRightLon);
      var chosen := MaxHashesFromChoice(tiles, start, maxHashes, None);
      var found := MaxHashesFrom(tiles, start, maxHashes, None);
      if found.value.Some? {
        var c := found.value.value;
        assert CoverLongs(topLeftLat, topLeftLon, bottomRightLat, bottomRightLon, chosen) == Ok(c);
        CoverBoundingBoxStrings(topLeftLat, topLeftLon, bottomRightLat, bottomRightLon, chosen);
        var h := CoverBoundingBox(topLeftLat, topLeftLon, bottomRightLat, bottomRightLon, chosen).value;
        assert FromCoverageLongs(c) == Ok(h);
        assert r == Ok(Some(h));
        assert h.HashLength() == chosen;
        forall k | start <= k <= chosen
          ensures CoverLongs(topLeftLat, topLeftLon, bottomRightLat, bottomRightLon, k).Ok?
          ensures CoverLongs(topLeftLat, topLeftLon, bottomRightLat, bottomRightLon, k).value.count <= maxHashes
        {
          assert tiles(k).value.count <= maxHashes;
        }
        if chosen < MAX_HASH_LENGTH {
          assert tiles(chosen + 1).value.count > maxHashes;
        }
      }
    }
  }

  /** `coverBoundingBox(topLeftLat, topLeftLon, bottomRightLat,
      bottomRightLon)`: the cover with at most `MAX_HASH_LENGTH` hashes. */
  function CoverBoundingBoxDefault(topLeftLat: real, topLeftLon: real, bottomRightLat: real, bottomRightLon: real)
    : Result<Option<Coverage>>
  {
    CoverMaxHashes(topLeftLat, topLeftLon, bottomRightLat, bottomRightLon, MAX_HASH_LENGTH)
  }

  /** It throws exactly when the top lies below the bottom, and a cover it
      returns has at most 12 hashes, all of the cover's hash length. */
  lemma CoverBoundingBoxDefaultBound(topLeftLat: real, topLeftLon: real, bottomRightLat: real, bottomRightLon: real)
    ensures var r := CoverBoundingBoxDefault(topLeftLat, topLeftLon, bottomRightLat, bottomRightLon);
      (r.Fail? <==> topLeftLat < bottomRightLat)
      && (r.Ok? && r.value.Some? ==>
            var h := r.value.value;
            |h.hashes| <= MAX_HASH_LENGTH && forall k | 0 <= k < |h.hashes| :: |h.hashes[k]| == h.HashLength())
  {
    CoverMaxHashesRejects(topLeftLat, topLeftLon, bottomRightLat, bottomRightLon, MAX_HASH_LENGTH);
    CoverMaxHashesFound(topLeftLat, topLeftLon, bottomRightLat, bottomRightLon, MAX_HASH_LENGTH);
    var r := CoverBoundingBoxDefault(topLeftLat, topLeftLon, bottomRightLat, bottomRightLon);
    if r.Ok? && r.value.Some? {
      CoverBoundingBoxStrings(topLeftLat, topLeftLon, bottomRightLat, bottomRightLon, r.value.value.HashLength());
    }
  }
}
