/** The bisection that every geohash operation shares (`encodeToLong`,
    `decodeGeohash`, `hashLengthToCoverBoundingBox`): starting from the whole
    world, bit k halves the longitude interval when k is even and the latitude
    interval when k is odd; a set bit keeps the upper half. This module is the
    specification the imperative loops are proved against. */
module Bisection {
  import opened GeohashInternal

  datatype Interval = Interval(lo: real, hi: real)
  {
    function Mid(): real
    {
      (lo + hi) / 2.0
    }

    function Width(): real
    {
      hi - lo
    }

    /** Closed membership. */
    predicate Contains(x: real)
    {
      lo <= x <= hi
    }

    /** Half-open membership: the points the bisection assigns to this interval. */
    predicate Owns(x: real)
    {
      lo <= x < hi
    }

    predicate Within(outer: Interval)
    {
      outer.lo <= lo && hi <= outer.hi
    }
  }

  /** A geohash cell: a latitude and a longitude interval. */
  datatype Cell = Cell(lat: Interval, lon: Interval)
  {
    predicate Contains(latitude: real, longitude: real)
    {
      lat.Contains(latitude) && lon.Contains(longitude)
    }

    predicate Owns(latitude: real, longitude: real)
    {
      lat.Owns(latitude) && lon.Owns(longitude)
    }

    predicate Within(outer: Cell)
    {
      lat.Within(outer.lat) && lon.Within(outer.lon)
    }
  }

  /** Latitude [-90, 90] by longitude [-180, 180]. */
  const WORLD: Cell := Cell(Interval(-90.0, 90.0), Interval(-180.0, 180.0))

  /** One bisection step on one axis. */
  function Halve(iv: Interval, upper: bool): (r: Interval)
    ensures r.Width() == iv.Width() / 2.0
    ensures iv.lo <= iv.hi ==> r.Within(iv)
  {
    if upper then Interval(iv.Mid(), iv.hi) else Interval(iv.lo, iv.Mid())
  }

  /** Bit number k refines longitude for even k, latitude for odd k. */
  function Refine(c: Cell, k: nat, b: bool): Cell
  {
    if k % 2 == 0 then Cell(c.lat, Halve(c.lon, b)) else Cell(Halve(c.lat, b), c.lon)
  }

  /** The cell a bit string denotes. */
  function CellOf(bits: seq<bool>): Cell
  {
    if bits == [] then WORLD
    else Refine(CellOf(bits[..|bits| - 1]), |bits| - 1, bits[|bits| - 1])
  }

  /** The bit the encoder emits at step k inside cell c: is the coordinate on
      the upper side of the midpoint? */
  function NextBit(latitude: real, longitude: real, c: Cell, k: nat): bool
  {
    if k % 2 == 0 then longitude >= c.lon.Mid() else latitude >= c.lat.Mid()
  }

  /** The first n bits the encoder emits for a point. */
  function EncodeBits(latitude: real, longitude: real, n: nat): (r: seq<bool>)
    ensures |r| == n
  {
    if n == 0 then []
    else
      var prev := EncodeBits(latitude, longitude, n - 1);
      prev + [NextBit(latitude, longitude, CellOf(prev), n - 1)]
  }

  /** The centre of a cell, as `decodeGeohash` returns it. */
  function Centre(c: Cell): (real, real)
  {
    (c.lat.Mid(), c.lon.Mid())
  }

  /** Encoding fewer bits gives a prefix of encoding more. */
  lemma {:induction false} EncodeBitsPrefix(latitude: real, longitude: real, m: nat, n: nat)
    requires m <= n
    ensures EncodeBits(latitude, longitude, m) == EncodeBits(latitude, longitude, n)[..m]
    decreases n
  {
    if m < n {
      EncodeBitsPrefix(latitude, longitude, m, n - 1);
      var e := EncodeBits(latitude, longitude, n);
      assert e[..n - 1] == EncodeBits(latitude, longitude, n - 1);
      assert e[..n - 1][..m] == e[..m];
    }
  }

  /** After k bits the longitude interval has been halved ceil(k/2) times and
      the latitude interval floor(k/2) times. */
  lemma {:induction false} CellSize(bits: seq<bool>)
    ensures CellOf(bits).lon.Width() == 360.0 / Pow2Nat((|bits| + 1) / 2) as real
    ensures CellOf(bits).lat.Width() == 180.0 / Pow2Nat(|bits| / 2) as real
  {
    if bits != [] {
      var n := |bits| - 1;
      var c := CellOf(bits[..n]);
      CellSize(bits[..n]);
      assert CellOf(bits) == Refine(c, n, bits[n]);
      if n % 2 == 0 {
        assert (n + 2) / 2 == (n + 1) / 2 + 1 && (n + 1) / 2 == n / 2;
        HalfOf(360.0, Pow2Nat((n + 1) / 2) as real);
      } else {
        assert (n + 1) / 2 == n / 2 + 1 && (n + 2) / 2 == (n + 1) / 2;
        HalfOf(180.0, Pow2Nat(n / 2) as real);
      }
    }
  }

  lemma HalfOf(a: real, p: real)
    requires p > 0.0
    ensures (a / p) / 2.0 == a / (2.0 * p)
  {
  }

  /** After n characters (5 n bits) a cell is `calculateWidthDegrees(n)` wide
      and `calculateHeightDegrees(n)` high. */
  lemma CellDimensions(bits: seq<bool>, n: nat)
    requires |bits| == 5 * n
    ensures CellOf(bits).lon.Width() == CalculateWidthDegrees(n)
    ensures CellOf(bits).lat.Width() == CalculateHeightDegrees(n)
  {
    CellSize(bits);
    assert 5 * n == 10 * (n / 2) + 5 * (n % 2);
    CellWidth(n);
    assert |bits| / 2 == HeightExponent(n);
  }

  lemma CellWidth(n: nat)
    ensures 360.0 / Pow2Nat((5 * n + 1) / 2) as real == CalculateWidthDegrees(n)
  {
    var h := n / 2;
    var e := WidthExponent(n);
    if n % 2 == 0 {
      assert n == 2 * h;
      assert (5 * n + 1) / 2 == 5 * h && e == 5 * h - 1;
    } else {
      assert n == 2 * h + 1;
      assert (5 * n + 1) / 2 == 5 * h + 3 && e == 5 * h + 2;
    }
    if n == 0 {
      assert Pow2(e) == 0.5;
    } else {
      var p := Pow2Nat(e) as real;
      assert Pow2(e) == p;
      assert Pow2Nat(e + 1) as real == 2.0 * p;
      DoubleDivisor(p);
    }
  }

  lemma DoubleDivisor(p: real)
    requires p > 0.0
    ensures 360.0 / (2.0 * p) == 180.0 / p
  {
  }

  /** Every cell lies in the world and has positive extent on both axes. */
  lemma {:induction false} CellInWorld(bits: seq<bool>)
    ensures CellOf(bits).Within(WORLD)
    ensures CellOf(bits).lat.lo < CellOf(bits).lat.hi && CellOf(bits).lon.lo < CellOf(bits).lon.hi
  {
    if bits != [] {
      CellInWorld(bits[..|bits| - 1]);
    }
  }

  /** A longer bit string denotes a sub-cell of a shorter prefix. */
  lemma {:induction false} CellNested(bits: seq<bool>, k: nat)
    requires k <= |bits|
    ensures CellOf(bits).Within(CellOf(bits[..k]))
    decreases |bits|
  {
    if k < |bits| {
      var n := |bits| - 1;
      assert bits[..n][..k] == bits[..k];
      CellNested(bits[..n], k);
      CellInWorld(bits[..n]);
      assert CellOf(bits).Within(CellOf(bits[..n]));
    } else {
      assert bits[..k] == bits;
    }
  }

  /** The encoder's cell contains the point: every point of the world lies in
      the closed cell of its own bits. */
  lemma {:induction false} EncodeContains(latitude: real, longitude: real, n: nat)
    requires WORLD.Contains(latitude, longitude)
    ensures CellOf(EncodeBits(latitude, longitude, n)).Contains(latitude, longitude)
  {
    if n > 0 {
      EncodeContains(latitude, longitude, n - 1);
      var prev := EncodeBits(latitude, longitude, n - 1);
      assert EncodeBits(latitude, longitude, n)[..n - 1] == prev;
    }
  }

  /** A point the cell of `bits` owns (half-open on both axes) encodes to
      exactly `bits`. */
  lemma {:induction false} EncodeOwned(bits: seq<bool>, latitude: real, longitude: real)
    requires CellOf(bits).Owns(latitude, longitude)
    ensures EncodeBits(latitude, longitude, |bits|) == bits
  {
    if bits != [] {
      var n := |bits| - 1;
      var prefix := bits[..n];
      CellInWorld(prefix);
      assert CellOf(prefix).Owns(latitude, longitude);
      EncodeOwned(prefix, latitude, longitude);
    }
  }

  /** Decoding then re-encoding: the centre of the cell of `bits` encodes back
      to `bits`. */
  lemma CentreEncodes(bits: seq<bool>)
    ensures EncodeBits(Centre(CellOf(bits)).0, Centre(CellOf(bits)).1, |bits|) == bits
  {
    CellInWorld(bits);
    EncodeOwned(bits, Centre(CellOf(bits)).0, Centre(CellOf(bits)).1);
  }

  /** The centre of every cell lies in the world. */
  lemma CentreInWorld(bits: seq<bool>)
    ensures -90.0 <= Centre(CellOf(bits)).0 <= 90.0
    ensures -180.0 <= Centre(CellOf(bits)).1 <= 180.0
  {
    CellInWorld(bits);
  }
}
