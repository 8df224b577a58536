/** The string-level operations of `Geohash.kt` built on the codec:
    `encodeGeohash`, `fromStringToLong`, the cached `widthDegrees` and
    `heightDegrees`, and `hashContains`. */
module GeohashText {
  import opened Wrappers
  import opened GeohashInternal
  import opened Bisection
  import opened Longs
  import opened GeohashCodec

  /** `HASH_WIDTH_DEGREES`: `calculateWidthDegrees(i)` for i from 0 to 12. */
  const HASH_WIDTH_DEGREES: seq<real> := DegreesTable(true)

  /** `HASH_HEIGHT_DEGREES`: `calculateHeightDegrees(i)` for i from 0 to 12. */
  const HASH_HEIGHT_DEGREES: seq<real> := DegreesTable(false)

  /** The first 13 widths (or heights) in order of length. */
  function DegreesTable(width: bool): (r: seq<real>)
    ensures |r| == MAX_HASH_LENGTH + 1
  {
    seq(MAX_HASH_LENGTH + 1, (i: int) => if width then CalculateWidthDegrees(i) else CalculateHeightDegrees(i))
  }

  /** `widthDegrees(n)`: the formula above 12, the cached table up to 12; a
      negative length indexes the table out of bounds. */
  function WidthDegrees(n: int): (r: Result<real>)
    ensures r.Ok? <==> n >= 0
  {
    if n > MAX_HASH_LENGTH then Ok(CalculateWidthDegrees(n))
    else if n < 0 then Fail("index out of bounds")
    else Ok(HASH_WIDTH_DEGREES[n])
  }

  /** `heightDegrees(n)`, cached in the same way. */
  function HeightDegrees(n: int): (r: Result<real>)
    ensures r.Ok? <==> n >= 0
  {
    if n > MAX_HASH_LENGTH then Ok(CalculateHeightDegrees(n))
    else if n < 0 then Fail("index out of bounds")
    else Ok(HASH_HEIGHT_DEGREES[n])
  }

  /** The cell of every n-character hash is `widthDegrees(n)` wide and
      `heightDegrees(n)` high. */
  lemma DegreesOfCell(geohash: string)
    ensures DecodeCell(geohash).lon.Width() == WidthDegrees(|geohash|).value
    ensures DecodeCell(geohash).lat.Width() == HeightDegrees(|geohash|).value
  {
    DecodeCellIsCellOf(geohash);
    CellDimensions(HashBits(geohash), |geohash|);
    CachedWidth(|geohash|);
    CachedHeight(|geohash|);
  }

  /** The cache changes nothing: the tables agree with the formulas. */
  lemma CachedWidth(n: nat)
    ensures WidthDegrees(n).value == CalculateWidthDegrees(n)
  {
  }

  lemma CachedHeight(n: nat)
    ensures HeightDegrees(n).value == CalculateHeightDegrees(n)
  {
  }

  function Abs(x: real): real
  {
    if x < 0.0 then -x else x
  }

  /** `hashContains(geohash, latitude, longitude)`: the point is within half a
      cell height of the decoded centre, and its longitude, after `to180`, is
      within half a cell width. */
  function HashContains(geohash: string, latitude: real, longitude: real): bool
  {
    var centre := DecodedCentre(geohash);
    Abs(centre.0 - latitude) <= HeightDegrees(|geohash|).value / 2.0
      && Abs(To180(centre.1 - longitude)) <= WidthDegrees(|geohash|).value / 2.0
  }

  /** The cell holds the latitude, and the longitude or one of its copies a
      full turn away. */
  predicate HoldsOnSphere(c: Cell, latitude: real, longitude: real)
  {
    c.lat.Contains(latitude)
    && (c.lon.Contains(longitude) || c.lon.Contains(longitude + 360.0) || c.lon.Contains(longitude - 360.0))
  }

  /** For a longitude in [-180, 180], `hashContains` holds exactly when the
      decoded cell contains the latitude and contains the longitude or one of
      its copies a full turn away. */
  lemma HashContainsCell(geohash: string, latitude: real, longitude: real)
    requires -180.0 <= longitude <= 180.0
    ensures HashContains(geohash, latitude, longitude) <==> HoldsOnSphere(DecodeCell(geohash), latitude, longitude)
  {
    var centre := DecodedCentre(geohash);
    var height := HeightDegrees(|geohash|).value;
    var width := WidthDegrees(|geohash|).value;
    assert HashContains(geohash, latitude, longitude)
      == (Abs(centre.0 - latitude) <= height / 2.0 && Abs(To180(centre.1 - longitude)) <= width / 2.0);
    DecodedCellFacts(geohash);
    CentreWindow(DecodeCell(geohash), centre, height, width, latitude, longitude);
  }

  /** What `hashContains` needs of a decoded cell: it lies in the world, its
      centre is the decoded centre and its size the cached width and height. */
  lemma DecodedCellFacts(geohash: string)
    ensures DecodeCell(geohash).Within(WORLD) && DecodeCell(geohash).lon.lo <= DecodeCell(geohash).lon.hi
    ensures DecodedCentre(geohash) == Centre(DecodeCell(geohash))
    ensures HeightDegrees(|geohash|).value == DecodeCell(geohash).lat.Width()
    ensures WidthDegrees(|geohash|).value == DecodeCell(geohash).lon.Width()
  {
    DegreesOfCell(geohash);
    DecodeCentre(geohash);
    DecodeCellIsCellOf(geohash);
    CellInWorld(HashBits(geohash));
  }

  /** The test of `hashContains` on the centre and size of a cell of the
      world: the cell holds the latitude and the longitude or a copy of it. */
  lemma CentreWindow(c: Cell, centre: (real, real), height: real, width: real, latitude: real, longitude: real)
    requires c.Within(WORLD) && c.lon.lo <= c.lon.hi && -180.0 <= longitude <= 180.0
    requires centre == Centre(c) && height == c.lat.Width() && width == c.lon.Width()
    ensures Abs(centre.0 - latitude) <= height / 2.0 && Abs(To180(centre.1 - longitude)) <= width / 2.0
      <==> HoldsOnSphere(c, latitude, longitude)
  {
    Window(c.lat, latitude);
    LonWindow(c.lon, longitude);
  }

  /** Within half a width of the midpoint is within the interval. */
  lemma Window(iv: Interval, x: real)
    ensures Abs(iv.Mid() - x) <= iv.Width() / 2.0 <==> iv.Contains(x)
  {
  }

  /** The same after `to180`, for an interval and a point of [-180, 180]:
      the point or one of its copies a turn away is in the interval. */
  lemma LonWindow(iv: Interval, x: real)
    requires -180.0 <= iv.lo <= iv.hi <= 180.0 && -180.0 <= x <= 180.0
    ensures Abs(To180(iv.Mid() - x)) <= iv.Width() / 2.0
      <==> iv.Contains(x) || iv.Contains(x + 360.0) || iv.Contains(x - 360.0)
  {
    To180Near(iv.Mid() - x);
  }

  /** `to180` on [-360, 360] removes at most one turn. */
  lemma To180Near(d: real)
    requires -360.0 <= d <= 360.0
    ensures To180(d) == if d > 180.0 then d - 360.0 else if d < -180.0 then d + 360.0 else d
  {
    if d > 180.0 {
      assert ((d + 180.0) / 360.0).Floor == 1;
    } else if d < -180.0 {
      assert ((-d + 180.0) / 360.0).Floor == 1;
    }
  }

  /** A hash contains its own decoded centre. */
  lemma HashContainsCentre(geohash: string)
    ensures HashContains(geohash, DecodedCentre(geohash).0, DecodedCentre(geohash).1)
  {
    CachedWidth(|geohash|);
    CachedHeight(|geohash|);
  }

  /** `decodeGeohash("")` is the centre of the world, (0, 0). */
  lemma DecodeEmpty()
    ensures DecodedCentre("") == (0.0, 0.0)
  {
  }

  /** Every decoded centre lies in the world. */
  lemma DecodedInWorld(geohash: string)
    ensures -90.0 <= DecodedCentre(geohash).0 <= 90.0
    ensures -180.0 <= DecodedCentre(geohash).1 <= 180.0
  {
    CentreInWorld(HashBits(geohash));
  }

  /** `encodeGeohash(latitude, longitude, length)`: reject a length outside
      1 to 12 and a latitude outside [-90, 90], otherwise render the word of
      the point with its longitude normalised by `to180`. */
  function EncodeGeohash(latitude: real, longitude: real, length: int): (r: Result<string>)
    ensures r.Ok? <==> 1 <= length <= MAX_HASH_LENGTH && -90.0 <= latitude <= 90.0
    ensures r.Ok? ==> |r.value| == length
  {
    if length < 1 || length > MAX_HASH_LENGTH then Fail("length must be between 1 and 12")
    else if latitude < -90.0 || latitude > 90.0 then Fail("latitude must be between -90 and 90 inclusive")
    else
      EncodeWordNibble(latitude, To180(longitude), length);
      LongToString(EncodeWord(latitude, To180(longitude), length))
  }

  /** The characters of an encoding are the characters of the bisection bits
      of the point. */
  lemma EncodeGeohashBits(latitude: real, longitude: real, length: int)
    requires EncodeGeohash(latitude, longitude, length).Ok?
    ensures EncodeGeohash(latitude, longitude, length).value
      == HashString(EncodeBits(latitude, To180(longitude), 5 * length))
  {
    RenderEncoded(latitude, To180(longitude), length);
  }

  /** Every character of an encoding is in the alphabet. */
  lemma EncodeGeohashAlphabet(latitude: real, longitude: real, length: int)
    requires EncodeGeohash(latitude, longitude, length).Ok?
    ensures var s := EncodeGeohash(latitude, longitude, length).value;
      forall k | 0 <= k < |s| :: IsBase32(s[k])
  {
    LongToStringAlphabet(EncodeWord(latitude, To180(longitude), length));
  }

  /** A shorter encoding of a point is a prefix of a longer one. */
  lemma EncodeGeohashPrefix(latitude: real, longitude: real, m: int, n: int)
    requires 1 <= m <= n <= MAX_HASH_LENGTH && -90.0 <= latitude <= 90.0
    ensures EncodeGeohash(latitude, longitude, m).value == EncodeGeohash(latitude, longitude, n).value[..m]
  {
    var lon := To180(longitude);
    var bits := EncodeBits(latitude, lon, 5 * n);
    EncodeGeohashBits(latitude, longitude, m);
    EncodeGeohashBits(latitude, longitude, n);
    EncodeBitsPrefix(latitude, lon, 5 * m, 5 * n);
    FiveGroups(|bits|, n);
    HashStringPrefix(bits, m);
  }

  /** Decoding then encoding at the same length gives the hash back, for
      every hash of 1 to 12 characters of the alphabet. */
  lemma EncodeDecodedCentre(geohash: string)
    requires 1 <= |geohash| <= MAX_HASH_LENGTH
    requires forall k | 0 <= k < |geohash| :: IsBase32(geohash[k])
    ensures EncodeGeohash(DecodedCentre(geohash).0, DecodedCentre(geohash).1, |geohash|) == Ok(geohash)
  {
    var bits := HashBits(geohash);
    var centre := DecodedCentre(geohash);
    DecodedInWorld(geohash);
    To180Identity(centre.1);
    EncodeGeohashBits(centre.0, centre.1, |geohash|);
    CentreEncodes(bits);
    HashStringOfHashBits(geohash);
  }

  /** An encoding contains the point it encodes, whatever the longitude:
      `encodeGeohash` normalises it with `to180`, and `hashContains` compares
      longitudes after `to180`. */
  lemma EncodeGeohashContains(latitude: real, longitude: real, length: int)
    requires 1 <= length <= MAX_HASH_LENGTH && -90.0 <= latitude <= 90.0
    ensures HashContains(EncodeGeohash(latitude, longitude, length).value, latitude, longitude)
  {
    var normal := To180(longitude);
    To180Identity(normal);
    assert EncodeGeohash(latitude, longitude, length) == EncodeGeohash(latitude, normal, length);
    NormalEncodingContains(latitude, normal, length);
    HashContainsNormalised(EncodeGeohash(latitude, normal, length).value, latitude, longitude);
  }

  /** `hashContains` sees a longitude only through `to180`: a point and its
      copies whole turns away are contained alike. */
  lemma HashContainsNormalised(geohash: string, latitude: real, longitude: real)
    ensures HashContains(geohash, latitude, longitude) == HashContains(geohash, latitude, To180(longitude))
  {
    var c := DecodedCentre(geohash).1;
    var normal := To180(longitude);
    To180WholeTurns(longitude);
    assert c - longitude == (c - normal) - Turns(longitude) as real * 360.0;
    To180Periodic(c - normal, Turns(longitude));
  }

  /** The same for a longitude already in [-180, 180]. */
  lemma NormalEncodingContains(latitude: real, longitude: real, length: int)
    requires 1 <= length <= MAX_HASH_LENGTH && -90.0 <= latitude <= 90.0
    requires -180.0 <= longitude <= 180.0
    ensures HashContains(EncodeGeohash(latitude, longitude, length).value, latitude, longitude)
  {
    var s := EncodeGeohash(latitude, longitude, length).value;
    var bits := EncodeBits(latitude, longitude, 5 * length);
    To180Identity(longitude);
    EncodeGeohashBits(latitude, longitude, length);
    FiveGroups(|bits|, length);
    HashBitsOfHashString(bits);
    DecodeCellIsCellOf(s);
    EncodeContains(latitude, longitude, 5 * length);
    HashContainsCell(s, latitude, longitude);
  }

  /** `fromStringToLong(geohash)`: encode the decoded centre at the hash's
      own length. */
  method FromStringToLong(geohash: string) returns (r: Long)
    ensures r == EncodeWord(DecodedCentre(geohash).0, DecodedCentre(geohash).1, |geohash|)
  {
    var latitude, longitude := DecodeGeohash(geohash);
    r := EncodeToLong(latitude, longitude, |geohash|);
  }

  /** Rendering a word of `encodeToLong` and reading it back with
      `fromStringToLong` gives the word again. */
  lemma LongRoundTrip(latitude: real, longitude: real, length: int)
    requires 1 <= length <= MAX_HASH_LENGTH
    ensures var w := EncodeWord(latitude, longitude, length);
      LongToString(w).Ok?
      && EncodeWord(DecodedCentre(LongToString(w).value).0, DecodedCentre(LongToString(w).value).1, length) == w
  {
    var bits := EncodeBits(latitude, longitude, 5 * length);
    var s := HashString(bits);
    RenderEncoded(latitude, longitude, length);
    FiveGroups(|bits|, length);
    HashBitsOfHashString(bits);
    CentreEncodes(bits);
  }
}
