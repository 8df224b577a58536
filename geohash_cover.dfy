/** Covering a bounding box with hashes (`Geohash.kt`):
    `hashLengthToCoverBoundingBox`, which runs the encoder's bisection on two
    corners at once, `coverBoundingBoxLongs`, which steps a grid of points over
    the box, and `coverBoundingBoxMaxHashes`, which picks the longest hash
    length whose cover stays within a budget. */
module GeohashCover {
  import opened Wrappers
  import opened GeohashInternal
  import opened Bisection
  import opened Longs
  import opened GeohashCodec
  import opened GeohashText
  import opened Coverages

  /** The number of leading positions on which two bit strings agree. */
  function CommonPrefix(x: seq<bool>, y: seq<bool>): (r: nat)
    requires |x| == |y|
    ensures r <= |x| && x[..r] == y[..r]
    ensures r < |x| ==> x[r] != y[r]
  {
    if x == [] || x[0] != y[0] then 0
    else
      var rest := CommonPrefix(x[1..], y[1..]);
      assert x[..rest + 1] == [x[0]] + x[1..][..rest];
      assert y[..rest + 1] == [y[0]] + y[1..][..rest];
      rest + 1
  }

  /** Agreeing on the first k positions and differing at position k pins the
      common prefix down to k. */
  lemma CommonPrefixIs(x: seq<bool>, y: seq<bool>, k: nat)
    requires |x| == |y| && k <= |x| && x[..k] == y[..k] && (k < |x| ==> x[k] != y[k])
    ensures CommonPrefix(x, y) == k
  {
  }

  /** What `hashLengthToCoverBoundingBox` returns: the corners' encodings
      agree on their first `CommonPrefix` bits out of 60, and every 5 of those
      bits make one character. */
  function CoverLength(topLeftLat: real, topLeftLon: real, bottomRightLat: real, bottomRightLon: real): nat
  {
    CommonPrefix(EncodeBits(topLeftLat, topLeftLon, 5 * MAX_HASH_LENGTH),
      EncodeBits(bottomRightLat, bottomRightLon, 5 * MAX_HASH_LENGTH)) / 5
  }

  /** `hashLengthToCoverBoundingBox(topLeftLat, topLeftLon, bottomRightLat,
      bottomRightLon)`: bisect longitude and latitude in turn for both corners
      and stop, with the number of whole characters so far, at the first step
      that puts them on different sides of the midpoint. */
  method HashLengthToCoverBoundingBox(topLeftLat: real, topLeftLon: real, bottomRightLat: real, bottomRightLon: real)
    returns (r: int)
    ensures r == CoverLength(topLeftLat, topLeftLon, bottomRightLat, bottomRightLon)
  {
    var isEven := true;
    var minLat := -90.0;
    var maxLat := 90.0;
    var minLon := -180.0;
    var maxLon := 180.0;
    for bits := 0 to MAX_HASH_LENGTH * 5
      invariant isEven == (bits % 2 == 0)
      invariant Tracks(topLeftLat, topLeftLon, bottomRightLat, bottomRightLon, bits, Cell(Interval(minLat, maxLat), Interval(minLon, maxLon)))
    {
      ghost var cell := Cell(Interval(minLat, maxLat), Interval(minLon, maxLon));
      ghost var upper := NextBit(topLeftLat, topLeftLon, cell, bits);
      if isEven {
        var mid := (minLon + maxLon) / 2.0;
        if topLeftLon >= mid {
          if bottomRightLon < mid {
            TracksSplit(topLeftLat, topLeftLon, bottomRightLat, bottomRightLon, bits, cell);
            return bits / 5;
          }
          minLon := mid;
        } else {
          if bottomRightLon >= mid {
            TracksSplit(topLeftLat, topLeftLon, bottomRightLat, bottomRightLon, bits, cell);
            return bits / 5;
          }
          maxLon := mid;
        }
      } else {
        var mid := (minLat + maxLat) / 2.0;
        if topLeftLat >= mid {
          if bottomRightLat < mid {
            TracksSplit(topLeftLat, topLeftLon, bottomRightLat, bottomRightLon, bits, cell);
            return bits / 5;
          }
          minLat := mid;
        } else {
          if bottomRightLat >= mid {
            TracksSplit(topLeftLat, topLeftLon, bottomRightLat, bottomRightLon, bits, cell);
            return bits / 5;
          }
          maxLat := mid;
        }
      }
      TracksStep(topLeftLat, topLeftLon, bottomRightLat, bottomRightLon, bits, cell);
      assert Cell(Interval(minLat, maxLat), Interval(minLon, maxLon)) == Refine(cell, bits, upper);
      Parity(bits);
      isEven := !isEven;
    }
    TracksWhole(topLeftLat, topLeftLon, bottomRightLat, bottomRightLon, Cell(Interval(minLat, maxLat), Interval(minLon, maxLon)));
    return MAX_HASH_LENGTH;
  }

  /** The state of the loop after `k` steps: the corners' first `k` bits
      agree and the bounds are the cell those bits select. */
  ghost predicate Tracks(topLeftLat: real, topLeftLon: real, bottomRightLat: real, bottomRightLon: real, k: nat, cell: Cell)
  {
    EncodeBits(topLeftLat, topLeftLon, k) == EncodeBits(bottomRightLat, bottomRightLon, k)
    && cell == CellOf(EncodeBits(topLeftLat, topLeftLon, k))
  }

  /** A step on which both corners take the same side keeps the loop state. */
  lemma TracksStep(topLeftLat: real, topLeftLon: real, bottomRightLat: real, bottomRightLon: real, k: nat, cell: Cell)
    requires Tracks(topLeftLat, topLeftLon, bottomRightLat, bottomRightLon, k, cell)
    requires NextBit(topLeftLat, topLeftLon, cell, k) == NextBit(bottomRightLat, bottomRightLon, cell, k)
    ensures Tracks(topLeftLat, topLeftLon, bottomRightLat, bottomRightLon, k + 1,
      Refine(cell, k, NextBit(topLeftLat, topLeftLon, cell, k)))
  {
    CornersAgree(topLeftLat, topLeftLon, bottomRightLat, bottomRightLon, k);
  }

  /** A step on which the corners part ends the loop with the right length. */
  lemma TracksSplit(topLeftLat: real, topLeftLon: real, bottomRightLat: real, bottomRightLon: real, k: nat, cell: Cell)
    requires k < 60 && Tracks(topLeftLat, topLeftLon, bottomRightLat, bottomRightLon, k, cell)
    requires NextBit(topLeftLat, topLeftLon, cell, k) != NextBit(bottomRightLat, bottomRightLon, cell, k)
    ensures CoverLength(topLeftLat, topLeftLon, bottomRightLat, bottomRightLon) == k / 5
  {
    CornersSplit(topLeftLat, topLeftLon, bottomRightLat, bottomRightLon, k);
  }

  /** Sixty agreeing steps give the full length. */
  lemma TracksWhole(topLeftLat: real, topLeftLon: real, bottomRightLat: real, bottomRightLon: real, cell: Cell)
    requires Tracks(topLeftLat, topLeftLon, bottomRightLat, bottomRightLon, 60, cell)
    ensures CoverLength(topLeftLat, topLeftLon, bottomRightLat, bottomRightLon) == MAX_HASH_LENGTH
  {
    CommonPrefixIs(EncodeBits(topLeftLat, topLeftLon, 60), EncodeBits(bottomRightLat, bottomRightLon, 60), 60);
  }

  /** The `Int` overload: the same with the corners converted to doubles. */
  method HashLengthToCoverBoundingBoxInts(topLeftLat: int, topLeftLon: int, bottomRightLat: int, bottomRightLon: int)
    returns (r: int)
    ensures r == CoverLength(topLeftLat as real, topLeftLon as real, bottomRightLat as real, bottomRightLon as real)
  {
    r := HashLengthToCoverBoundingBox(topLeftLat as real, topLeftLon as real, bottomRightLat as real, bottomRightLon as real);
  }

  /** When the corners' next bits agree, so do their encodings one bit
      longer. */
  lemma CornersAgree(lat1: real, lon1: real, lat2: real, lon2: real, k: nat)
    requires EncodeBits(lat1, lon1, k) == EncodeBits(lat2, lon2, k)
    requires NextBit(lat1, lon1, CellOf(EncodeBits(lat1, lon1, k)), k)
      == NextBit(lat2, lon2, CellOf(EncodeBits(lat1, lon1, k)), k)
    ensures EncodeBits(lat1, lon1, k + 1) == EncodeBits(lat2, lon2, k + 1)
    ensures CellOf(EncodeBits(lat1, lon1, k + 1))
      == Refine(CellOf(EncodeBits(lat1, lon1, k)), k, NextBit(lat1, lon1, CellOf(EncodeBits(lat1, lon1, k)), k))
  {
    var e := EncodeBits(lat1, lon1, k + 1);
    assert e[..k] == EncodeBits(lat1, lon1, k);
  }

  /** When the corners' next bits differ at step k < 60, the common prefix
      of their 60-bit encodings is k. */
  lemma CornersSplit(lat1: real, lon1: real, lat2: real, lon2: real, k: nat)
    requires k < 60
    requires EncodeBits(lat1, lon1, k) == EncodeBits(lat2, lon2, k)
    requires NextBit(lat1, lon1, CellOf(EncodeBits(lat1, lon1, k)), k)
      != NextBit(lat2, lon2, CellOf(EncodeBits(lat1, lon1, k)), k)
    ensures CommonPrefix(EncodeBits(lat1, lon1, 60), EncodeBits(lat2, lon2, 60)) == k
  {
    var x := EncodeBits(lat1, lon1, 60);
    var y := EncodeBits(lat2, lon2, 60);
    EncodeBitsPrefix(lat1, lon1, k + 1, 60);
    EncodeBitsPrefix(lat2, lon2, k + 1, 60);
    assert x[..k] == x[..k + 1][..k];
    assert y[..k] == y[..k + 1][..k];
    assert x[k] == x[..k + 1][k];
    assert y[k] == y[..k + 1][k];
    CommonPrefixIs(x, y, k);
  }

  /** The length is at most 12, and it is 12 exactly when the corners'
      60-bit encodings agree throughout. */
  lemma CoverLengthBound(topLeftLat: real, topLeftLon: real, bottomRightLat: real, bottomRightLon: real)
    ensures CoverLength(topLeftLat, topLeftLon, bottomRightLat, bottomRightLon) <= MAX_HASH_LENGTH
    ensures CoverLength(topLeftLat, topLeftLon, bottomRightLat, bottomRightLon) == MAX_HASH_LENGTH
      <==> EncodeBits(topLeftLat, topLeftLon, 60) == EncodeBits(bottomRightLat, bottomRightLon, 60)
  {
    var x := EncodeBits(topLeftLat, topLeftLon, 60);
    var y := EncodeBits(bottomRightLat, bottomRightLon, 60);
    if x == y {
      CommonPrefixIs(x, y, 60);
    }
  }

  /** The corners lie in one cell of the computed length. */
  lemma CoverLengthShared(topLeftLat: real, topLeftLon: real, bottomRightLat: real, bottomRightLon: real)
    ensures var n := CoverLength(topLeftLat, topLeftLon, bottomRightLat, bottomRightLon);
      EncodeBits(topLeftLat, topLeftLon, 5 * n) == EncodeBits(bottomRightLat, bottomRightLon, 5 * n)
  {
    var x := EncodeBits(topLeftLat, topLeftLon, 60);
    var y := EncodeBits(bottomRightLat, bottomRightLon, 60);
    var p := CommonPrefix(x, y);
    FiveFloor(p);
    var m := 5 * (p / 5);
    EncodeBitsPrefix(topLeftLat, topLeftLon, m, 60);
    EncodeBitsPrefix(bottomRightLat, bottomRightLon, m, 60);
    assert x[..m] == x[..p][..m];
    assert y[..m] == y[..p][..m];
  }

  /** One character longer, the corners lie in different cells: the computed
      length is the longest whose cell holds both. */
  lemma CoverLengthMaximal(topLeftLat: real, topLeftLon: real, bottomRightLat: real, bottomRightLon: real)
    requires CoverLength(topLeftLat, topLeftLon, bottomRightLat, bottomRightLon) < MAX_HASH_LENGTH
    ensures var n := CoverLength(topLeftLat, topLeftLon, bottomRightLat, bottomRightLon);
      EncodeBits(topLeftLat, topLeftLon, 5 * (n + 1)) != EncodeBits(bottomRightLat, bottomRightLon, 5 * (n + 1))
  {
    var x := EncodeBits(topLeftLat, topLeftLon, 60);
    var y := EncodeBits(bottomRightLat, bottomRightLon, 60);
    var p := CommonPrefix(x, y);
    FiveFloor(p);
    var m := 5 * (p / 5) + 5;
    EncodeBitsPrefix(topLeftLat, topLeftLon, m, 60);
    EncodeBitsPrefix(bottomRightLat, bottomRightLon, m, 60);
    assert x[..m][p] != y[..m][p];
  }

  /** Whole characters: `5 * (p / 5)` is the multiple of five at or just
      below `p`. */
  lemma FiveFloor(p: nat)
    ensures 5 * (p / 5) <= p < 5 * (p / 5) + 5
  {
  }

  /** In hash terms, for corners inside the world: the corners' encodings of
      the computed length are the same hash... */
  lemma CoverLengthSameHash(topLeftLat: real, topLeftLon: real, bottomRightLat: real, bottomRightLon: real)
    requires -90.0 <= topLeftLat <= 90.0 && -90.0 <= bottomRightLat <= 90.0
    requires -180.0 <= topLeftLon <= 180.0 && -180.0 <= bottomRightLon <= 180.0
    requires CoverLength(topLeftLat, topLeftLon, bottomRightLat, bottomRightLon) >= 1
    ensures var n := CoverLength(topLeftLat, topLeftLon, bottomRightLat, bottomRightLon);
      EncodeGeohash(topLeftLat, topLeftLon, n) == EncodeGeohash(bottomRightLat, bottomRightLon, n)
  {
    var n := CoverLength(topLeftLat, topLeftLon, bottomRightLat, bottomRightLon);
    CoverLengthBound(topLeftLat, topLeftLon, bottomRightLat, bottomRightLon);
    CoverLengthShared(topLeftLat, topLeftLon, bottomRightLat, bottomRightLon);
    SameHashSameCell(topLeftLat, topLeftLon, bottomRightLat, bottomRightLon, n);
  }

  /** ...and one character longer they are different hashes. */
  lemma CoverLengthNextHashDiffers(topLeftLat: real, topLeftLon: real, bottomRightLat: real, bottomRightLon: real)
    requires -90.0 <= topLeftLat <= 90.0 && -90.0 <= bottomRightLat <= 90.0
    requires -180.0 <= topLeftLon <= 180.0 && -180.0 <= bottomRightLon <= 180.0
    requires CoverLength(topLeftLat, topLeftLon, bottomRightLat, bottomRightLon) < MAX_HASH_LENGTH
    ensures var n := CoverLength(topLeftLat, topLeftLon, bottomRightLat, bottomRightLon);
      EncodeGeohash(topLeftLat, topLeftLon, n + 1) != EncodeGeohash(bottomRightLat, bottomRightLon, n + 1)
  {
    var n := CoverLength(topLeftLat, topLeftLon, bottomRightLat, bottomRightLon);
    CoverLengthMaximal(topLeftLat, topLeftLon, bottomRightLat, bottomRightLon);
    HashesApart(topLeftLat, topLeftLon, bottomRightLat, bottomRightLon, n + 1);
  }

  lemma HashesApart(lat1: real, lon1: real, lat2: real, lon2: real, length: nat)
    requires 1 <= length <= MAX_HASH_LENGTH && WORLD.Contains(lat1, lon1) && WORLD.Contains(lat2, lon2)
    requires EncodeBits(lat1, lon1, 5 * length) != EncodeBits(lat2, lon2, 5 * length)
    ensures EncodeGeohash(lat1, lon1, length) != EncodeGeohash(lat2, lon2, length)
  {
    SameHashSameCell(lat1, lon1, lat2, lon2, length);
  }

  /** Two points inside the world have the same hash of a length exactly
      when their bisection bits of that length agree. */
  lemma SameHashSameCell(lat1: real, lon1: real, lat2: real, lon2: real, length: nat)
    requires 1 <= length <= MAX_HASH_LENGTH
    requires -90.0 <= lat1 <= 90.0 && -90.0 <= lat2 <= 90.0
    requires -180.0 <= lon1 <= 180.0 && -180.0 <= lon2 <= 180.0
    ensures EncodeGeohash(lat1, lon1, length).Ok? && EncodeGeohash(lat2, lon2, length).Ok?
    ensures EncodeGeohash(lat1, lon1, length) == EncodeGeohash(lat2, lon2, length)
      <==> EncodeBits(lat1, lon1, 5 * length) == EncodeBits(lat2, lon2, 5 * length)
  {
    To180Identity(lon1);
    To180Identity(lon2);
    var a := EncodeBits(lat1, To180(lon1), 5 * length);
    var b := EncodeBits(lat2, To180(lon2), 5 * length);
    EncodeGeohashBits(lat1, lon1, length);
    EncodeGeohashBits(lat2, lon2, length);
    HashBitsOfHashString(a);
    HashBitsOfHashString(b);
  }

  /** A box whose corners lie on different sides of the prime meridian or of
      the equator gets length 0: the first or the second bit already tells
      them apart. */
  lemma CoverLengthZero(topLeftLat: real, topLeftLon: real, bottomRightLat: real, bottomRightLon: real)
    requires (topLeftLon >= 0.0) != (bottomRightLon >= 0.0) || (topLeftLat >= 0.0) != (bottomRightLat >= 0.0)
    ensures CoverLength(topLeftLat, topLeftLon, bottomRightLat, bottomRightLon) == 0
  {
    var x := EncodeBits(topLeftLat, topLeftLon, 60);
    var y := EncodeBits(bottomRightLat, bottomRightLon, 60);
    EncodeBitsPrefix(topLeftLat, topLeftLon, 2, 60);
    EncodeBitsPrefix(bottomRightLat, bottomRightLon, 2, 60);
    FirstBits(topLeftLat, topLeftLon);
    FirstBits(bottomRightLat, bottomRightLon);
    assert x[0] == x[..2][0] && x[1] == x[..2][1];
    assert y[0] == y[..2][0] && y[1] == y[..2][1];
    assert CommonPrefix(x, y) < 2;
  }

  /** The first two bits halve the world at the prime meridian and then at
      the equator. */
  lemma FirstBits(latitude: real, longitude: real)
    ensures EncodeBits(latitude, longitude, 2) == [longitude >= 0.0, latitude >= 0.0]
  {
    var one := EncodeBits(latitude, longitude, 1);
    assert EncodeBits(latitude, longitude, 0) == [];
    assert WORLD.lon.Mid() == 0.0;
    assert one == [longitude >= 0.0];
    assert one[..0] == [];
    assert CellOf(one).lat == WORLD.lat;
    assert WORLD.lat.Mid() == 0.0;
  }
}
