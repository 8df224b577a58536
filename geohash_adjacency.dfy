/** The adjacency walk of `Geohash.kt`: `adjacentHash` over the constant
    `NEIGHBOURS` and `BORDERS` tables with its edge-of-the-world shortcut
    `adjacentHashAtBorder`, the `steps` overload, and `neighbours`. */
module GeohashAdjacency {
  import opened Wrappers
  import opened Bisection
  import opened GeohashInternal
  import opened GeohashCodec
  import opened GeohashText
  import opened Directions

  /** `Parity`: whether a hash has an even or an odd number of characters. */
  datatype Parity = EVEN | ODD

  function ParityOf(length: nat): Parity
  {
    if length % 2 == 0 then EVEN else ODD
  }

  /** The four distinct rows of `NEIGHBOURS`; the rows for `LEFT` and
      `RIGHT` repeat those for `BOTTOM` and `TOP` with the parity swapped. */
  const BOTTOM_EVEN_ROW: string := "14365h7k9dcfesgujnmqp0r2twvyx8zb"
  const BOTTOM_ODD_ROW: string := "238967debc01fg45kmstqrwxuvhjyznp"
  const TOP_EVEN_ROW: string := "p0r21436x8zb9dcf5h7kjnmqesgutwvy"
  const TOP_ODD_ROW: string := "bc01fg45238967deuvhjyznpkmstqrwx"

  /** `NEIGHBOURS[direction][parity]`: the row read at the position of the
      last character, giving the character of the neighbouring cell. */
  function NeighbourRow(d: Direction, p: Parity): (r: string)
    ensures |r| == 32
  {
    match (d, p)
    case (BOTTOM, EVEN) => BOTTOM_EVEN_ROW
    case (BOTTOM, ODD) => BOTTOM_ODD_ROW
    case (TOP, EVEN) => TOP_EVEN_ROW
    case (TOP, ODD) => TOP_ODD_ROW
    case (LEFT, EVEN) => BOTTOM_ODD_ROW
    case (LEFT, ODD) => BOTTOM_EVEN_ROW
    case (RIGHT, EVEN) => TOP_ODD_ROW
    case (RIGHT, ODD) => TOP_EVEN_ROW
  }

  /** `BORDERS[direction][parity]`: the last characters whose neighbour lies
      in the neighbouring parent cell. */
  function BorderRow(d: Direction, p: Parity): string
  {
    match (d, p)
    case (BOTTOM, EVEN) => "028b"
    case (BOTTOM, ODD) => "0145hjnp"
    case (TOP, EVEN) => "prxz"
    case (TOP, ODD) => "bcfguvyz"
    case (LEFT, EVEN) => "0145hjnp"
    case (LEFT, ODD) => "028b"
    case (RIGHT, EVEN) => "bcfguvyz"
    case (RIGHT, ODD) => "prxz"
  }

  /** `row` is a rearrangement of the alphabet: 32 characters, each of them
      in the alphabet and every letter of the alphabet among them. */
  predicate Permutes(row: string)
  {
    |row| == 32 && (forall i | 0 <= i < 32 :: BASE32[i] in row) && (forall i | 0 <= i < 32 :: row[i] in BASE32)
  }

  lemma BottomEvenPermutes()
    ensures Permutes(BOTTOM_EVEN_ROW)
  {
  }

  lemma BottomOddPermutes()
    ensures Permutes(BOTTOM_ODD_ROW)
  {
  }

  lemma TopEvenPermutes()
    ensures Permutes(TOP_EVEN_ROW)
  {
  }

  lemma TopOddPermutes()
    ensures Permutes(TOP_ODD_ROW)
  {
  }

  /** Every row of `NEIGHBOURS` is a rearrangement of the alphabet. */
  lemma NeighbourRowPermutes(d: Direction, p: Parity)
    ensures Permutes(NeighbourRow(d, p))
  {
    BottomEvenPermutes();
    BottomOddPermutes();
    TopEvenPermutes();
    TopOddPermutes();
  }

  /** So the table lookup of `adjacentHash` finds every character of the
      alphabet. */
  lemma NeighbourLookup(d: Direction, p: Parity, c: char)
    requires IsBase32(c)
    ensures 0 <= IndexOf(NeighbourRow(d, p), c) < 32
  {
    IsBase32Member(c);
    NeighbourRowPermutes(d, p);
    IndexOfFirst(NeighbourRow(d, p), c);
  }

  /** Every character of a `BORDERS` row is in the alphabet. */
  lemma BorderRowInAlphabet(d: Direction, p: Parity)
    ensures forall i | 0 <= i < |BorderRow(d, p)| :: BorderRow(d, p)[i] in BASE32
  {
  }

  /** `Char.lowercase()` on one character: an ASCII capital letter becomes its
      small letter; every other character is left as it is. */
  function LowerChar(c: char): char
  {
    if 'A' <= c <= 'Z' then (c as int + 32) as char else c
  }

  /** `String.lowercase()`, character by character. */
  function Lowercase(s: string): (r: string)
    ensures |r| == |s|
  {
    seq(|s|, k requires 0 <= k < |s| => LowerChar(s[k]))
  }

  /** A string of the alphabet is already in lower case. */
  lemma LowercaseOfBase32(s: string)
    requires Alphabetic(s)
    ensures Lowercase(s) == s
  {
    forall k | 0 <= k < |s|
      ensures Lowercase(s)[k] == s[k]
    {
      IsBase32Member(s[k]);
      AlphabetIsSmall(s[k]);
    }
  }

  /** The alphabet has no capital letters. */
  lemma AlphabetIsSmall(c: char)
    requires c in BASE32
    ensures LowerChar(c) == c
  {
    assert forall i | 0 <= i < 32 :: !('A' <= BASE32[i] <= 'Z');
  }

  /** A result that may be `null`, from a result that may throw. */
  function Found(r: Result<string>): Result<Option<string>>
  {
    if r.Ok? then Ok(Some(r.value)) else Fail(r.reason)
  }

  /** `adjacentHashAtBorder(hash, direction)`: `null` unless the decoded cell
      touches the edge of the world on that side, judged by moving its centre
      half of `widthDegrees` (for latitude as well as longitude) and comparing
      with the edge within `PRECISION`; at a pole, the hash of the centre
      turned half way round the globe; at the antimeridian, the hash of the
      same latitude on the other side. */
  function AdjacentHashAtBorder(hash: string, d: Direction): Result<Option<string>>
  {
    var centre := DecodedCentre(hash);
    var half := WidthDegrees(|hash|).value / 2.0;
    match d
    case BOTTOM =>
      if Abs(centre.0 - half + 90.0) < PRECISION then Found(EncodeGeohash(centre.0, centre.1 + 180.0, |hash|))
      else Ok(None)
    case TOP =>
      if Abs(centre.0 + half - 90.0) < PRECISION then Found(EncodeGeohash(centre.0, centre.1 + 180.0, |hash|))
      else Ok(None)
    case LEFT =>
      if Abs(centre.1 - half + 180.0) < PRECISION then Found(EncodeGeohash(centre.0, 180.0, |hash|))
      else Ok(None)
    case RIGHT =>
      if Abs(centre.1 + half - 180.0) < PRECISION then Found(EncodeGeohash(centre.0, -180.0, |hash|))
      else Ok(None)
  }

  /** At the border the shortcut yields a hash of the same length, in the
      alphabet; it fails only for hashes longer than 12 characters. */
  lemma AtBorderShape(hash: string, d: Direction)
    requires 1 <= |hash|
    ensures AdjacentHashAtBorder(hash, d).Fail? ==> |hash| > MAX_HASH_LENGTH
    ensures var r := AdjacentHashAtBorder(hash, d);
      r.Ok? && r.value.Some? ==> |r.value.value| == |hash| && Alphabetic(r.value.value)
  {
    var centre := DecodedCentre(hash);
    var half := WidthDegrees(|hash|).value / 2.0;
    DecodedInWorld(hash);
    var longitude := match d
      case BOTTOM => centre.1 + 180.0
      case TOP => centre.1 + 180.0
      case LEFT => 180.0
      case RIGHT => -180.0;
    assert AdjacentHashAtBorder(hash, d).Ok? && AdjacentHashAtBorder(hash, d).value.Some? ==>
      AdjacentHashAtBorder(hash, d).value.value == EncodeGeohash(centre.0, longitude, |hash|).value;
    if 1 <= |hash| <= MAX_HASH_LENGTH {
      EncodeGeohashAlphabet(centre.0, longitude, |hash|);
    }
  }

  /** `adjacentHash(hash, direction)`: fail on the empty hash; take the border
      shortcut when it applies; otherwise replace the last character through
      `NEIGHBOURS`, first moving the rest of the hash the same way when the
      last character is on that side's `BORDERS`. */
  function AdjacentHash(hash: string, d: Direction): Result<string>
    decreases |hash|, 1
  {
    if hash == [] then Fail("adjacent has no meaning for a zero length hash that covers the whole world")
    else
      var border := AdjacentHashAtBorder(hash, d);
      if border.Fail? then Fail(border.reason)
      else if border.value.Some? then Ok(border.value.value)
      else Append(TableBase(hash, d), NeighbourIndex(d, ParityOf(|hash|), LowerChar(hash[|hash| - 1])))
  }

  /** `BORDERS[direction][parity].indexOf(lastChar) != -1`. */
  predicate OnBorder(d: Direction, p: Parity, c: char)
  {
    IndexOf(BorderRow(d, p), c) != -1
  }

  /** `NEIGHBOURS[direction][parity].indexOf(lastChar)`. */
  function NeighbourIndex(d: Direction, p: Parity, c: char): (r: int)
    ensures -1 <= r < 32
  {
    IndexOf(NeighbourRow(d, p), c)
  }

  /** `base + BASE32[k]`, where `BASE32[-1]` throws. */
  function Append(base: Result<string>, k: int): (r: Result<string>)
    requires k < 32
    ensures r.Ok? <==> base.Ok? && 0 <= k
    ensures r.Ok? ==> r.value == base.value + [BASE32[k]]
  {
    if base.Fail? then base
    else if k < 0 then Fail("string index out of range: -1")
    else Ok(base.value + [BASE32[k]])
  }

  /** The empty hash has no neighbours. */
  lemma AdjacentOfEmpty(d: Direction)
    ensures AdjacentHash([], d).Fail?
  {
  }

  /** Every character of `s` is in the alphabet. */
  predicate Alphabetic(s: string)
  {
    forall k | 0 <= k < |s| :: IsBase32(s[k])
  }

  /** What `adjacentHash` computes for the hash without its last character:
      that prefix moved the same way when the last character is on the
      border, the prefix itself otherwise. */
  function TableBase(hash: string, d: Direction): Result<string>
    requires hash != []
    decreases |hash|, 0
  {
    var source := Lowercase(hash);
    var n := |source| - 1;
    if OnBorder(d, ParityOf(|source|), source[n]) then AdjacentHash(source[..n], d) else Ok(source[..n])
  }

  /** Away from the edge of the world, `adjacentHash` appends the table entry
      of the last character to the moved prefix. This only unfolds one call
      of `AdjacentHash`; it is a lookup step for `AdjacentShape` and
      `AdjacentReplacesLast`, not a property in its own right. */
  lemma AdjacentTable(hash: string, d: Direction)
    requires hash != [] && AdjacentHashAtBorder(hash, d) == Ok(None)
    ensures AdjacentHash(hash, d)
      == Append(TableBase(hash, d), NeighbourIndex(d, ParityOf(|hash|), LowerChar(hash[|hash| - 1])))
  {
  }

  /** Appending an entry of the alphabet keeps a string in the alphabet. */
  lemma AppendAlphabetic(base: string, k: nat)
    requires Alphabetic(base) && k < 32
    ensures Alphabetic(base + [BASE32[k]])
  {
    DigitOfBase32(k);
    var r := base + [BASE32[k]];
    forall j | 0 <= j < |r|
      ensures IsBase32(r[j])
    {
      if j < |base| {
        assert r[j] == base[j];
      }
    }
  }

  /** A neighbour has as many characters as the hash, and when the hash is
      written in the alphabet so is its neighbour. */
  lemma {:induction false} AdjacentShape(hash: string, d: Direction)
    requires AdjacentHash(hash, d).Ok?
    ensures |AdjacentHash(hash, d).value| == |hash|
    ensures Alphabetic(hash) ==> Alphabetic(AdjacentHash(hash, d).value)
    decreases |hash|, 1
  {
    AtBorderShape(hash, d);
    if AdjacentHashAtBorder(hash, d) == Ok(None) {
      AdjacentTable(hash, d);
      TableShape(hash, d);
      if Alphabetic(hash) {
        AppendAlphabetic(TableBase(hash, d).value, NeighbourIndex(d, ParityOf(|hash|), LowerChar(hash[|hash| - 1])));
      }
    }
  }

  /** The same for the table step: the moved prefix keeps its length and
      the appended entry is a character of the alphabet. */
  lemma {:induction false} TableShape(hash: string, d: Direction)
    requires hash != []
    requires Append(TableBase(hash, d), NeighbourIndex(d, ParityOf(|hash|), LowerChar(hash[|hash| - 1]))).Ok?
    ensures |TableBase(hash, d).value| == |hash| - 1
    ensures Alphabetic(hash) ==> Alphabetic(TableBase(hash, d).value)
    decreases |hash|, 0
  {
    var source := Lowercase(hash);
    var n := |source| - 1;
    if OnBorder(d, ParityOf(|source|), source[n]) {
      AdjacentShape(source[..n], d);
    }
    if Alphabetic(hash) {
      LowercaseOfBase32(hash);
      assert Alphabetic(source[..n]);
    }
  }

  /** Away from the edge of the world and off the border row, only the last
      character changes: it becomes the `NEIGHBOURS` entry at its position. */
  lemma AdjacentReplacesLast(hash: string, d: Direction)
    requires hash != [] && Alphabetic(hash)
    requires AdjacentHashAtBorder(hash, d) == Ok(None)
    requires !OnBorder(d, ParityOf(|hash|), hash[|hash| - 1])
    ensures 0 <= NeighbourIndex(d, ParityOf(|hash|), hash[|hash| - 1])
    ensures AdjacentHash(hash, d)
      == Ok(hash[..|hash| - 1] + [BASE32[NeighbourIndex(d, ParityOf(|hash|), hash[|hash| - 1])]])
  {
    var n := |hash| - 1;
    TableBaseOffBorder(hash, d);
    NeighbourLookup(d, ParityOf(|hash|), hash[n]);
    AdjacentTable(hash, d);
  }

  /** Off the border row the prefix of a hash in the alphabet is kept as it
      is, and its last character is already in lower case. */
  lemma TableBaseOffBorder(hash: string, d: Direction)
    requires hash != [] && Alphabetic(hash)
    requires !OnBorder(d, ParityOf(|hash|), hash[|hash| - 1])
    ensures TableBase(hash, d) == Ok(hash[..|hash| - 1])
    ensures LowerChar(hash[|hash| - 1]) == hash[|hash| - 1]
  {
    LowercaseOfBase32(hash);
    IsBase32Member(hash[|hash| - 1]);
    AlphabetIsSmall(hash[|hash| - 1]);
  }

  /** No character occurs twice in `s`. */
  predicate Distinct(s: string)
  {
    forall a, b | 0 <= a < b < |s| :: s[a] != s[b]
  }

  /** In a string without repeats, `indexOf` inverts indexing. */
  lemma IndexOfDistinct(s: string, k: nat)
    requires k < |s| && Distinct(s)
    ensures IndexOf(s, s[k]) == k
  {
    IndexOfFirst(s, s[k]);
    assert s[k] in s;
  }

  /** A pair of characters as one number, so that a table of pairs is a
      sequence of numbers. */
  function PairCode(a: char, b: char): int
  {
    a as int * 0x11_0000 + b as int
  }

  lemma PairCodeInjective(a: char, b: char, a': char, b': char)
    requires PairCode(a, b) == PairCode(a', b')
    ensures a == a' && b == b'
  {
  }

  /** The pairs (`row[m]`, `BASE32[m]`) of each `NEIGHBOURS` row of `BOTTOM`
      and `TOP`: a row entry and the neighbour it stands for. */
  const BOTTOM_EVEN_PAIRS: seq<int> := [
    54591536, 57933873, 56819762, 60162099, 59047988, 115867701, 61276214, 119210039,
    63504440, 111411257, 110297186, 113639523, 112525412, 128122981, 114753638, 130351207,
    118095976, 122552426, 121438315, 125894765, 124780654, 53477488, 127008881, 55705714,
    129237107, 132579444, 131465333, 134807670, 133693559, 62390392, 135921785, 109183098]
  const BOTTOM_ODD_PAIRS: seq<int> := [
    55705648, 56819761, 62390322, 63504435, 60162100, 61276213, 111411254, 112525367,
    109183032, 110297145, 53477474, 54591587, 113639524, 114753637, 57933926, 59048039,
    119210088, 121438314, 128122987, 129237101, 125894766, 127008880, 132579441, 133693554,
    130351219, 131465332, 115867765, 118095990, 134807671, 135921784, 122552441, 124780666]
  const TOP_EVEN_PAIRS: seq<int> := [
    124780592, 53477425, 127008818, 55705651, 54591540, 57933877, 56819766, 60162103,
    133693496, 62390329, 135921762, 109183075, 63504484, 111411301, 110297190, 113639527,
    59048040, 115867754, 61276267, 119210093, 118095982, 122552432, 121438321, 125894770,
    112525427, 128122996, 114753653, 130351222, 129237111, 132579448, 131465337, 134807674]
  const TOP_ODD_PAIRS: seq<int> := [
    109183024, 110297137, 53477426, 54591539, 113639476, 114753589, 57933878, 59047991,
    55705656, 56819769, 62390370, 63504483, 60162148, 61276261, 111411302, 112525415,
    130351208, 131465322, 115867755, 118095981, 134807662, 135921776, 122552433, 124780658,
    119210099, 121438324, 128122997, 129237110, 125894775, 127008888, 132579449, 133693562]

  /** `pairs` are the pairs (`row[m]`, `BASE32[m]`) of `row`. */
  predicate PairsOf(row: string, pairs: seq<int>)
  {
    |row| == 32 && |pairs| == 32 && forall m | 0 <= m < 32 :: pairs[m] == PairCode(row[m], BASE32[m])
  }

  /** For every position `j` of `row` between `lo` and `hi`, the pair
      (`BASE32[j]`, `row[j]`) is among `pairs`. */
  predicate PairsCoverOn(row: string, pairs: seq<int>, lo: nat, hi: nat)
  {
    |row| == 32 && hi <= 32 && forall j | lo <= j < hi :: PairCode(BASE32[j], row[j]) in pairs
  }

  predicate PairsCover(row: string, pairs: seq<int>)
  {
    PairsCoverOn(row, pairs, 0, 16) && PairsCoverOn(row, pairs, 16, 32)
  }

  /** The lookup in `up` takes the neighbour `BASE32[j]` of `down[j]` back to
      `down[j]`: the pairs of `up` include (`BASE32[j]`, `down[j]`). */
  predicate Undoes(down: string, up: string, pairs: seq<int>)
  {
    PairsOf(up, pairs) && PairsCover(down, pairs)
  }

  /** Between positions `lo` and `hi`, an entry of `down` off the border row
      `downBorder` stands at a position whose letter of the alphabet is off
      the border row `upBorder`. */
  predicate BordersApartOn(down: string, downBorder: string, upBorder: string, lo: nat, hi: nat)
  {
    |down| == 32 && hi <= 32 && forall j | lo <= j < hi :: down[j] in downBorder || BASE32[j] !in upBorder
  }

  predicate BordersApart(down: string, downBorder: string, upBorder: string)
  {
    BordersApartOn(down, downBorder, upBorder, 0, 16) && BordersApartOn(down, downBorder, upBorder, 16, 32)
  }

  lemma BottomEvenPairs()
    ensures PairsOf(BOTTOM_EVEN_ROW, BOTTOM_EVEN_PAIRS)
  {
  }

  lemma BottomEvenLowCovered()
    ensures PairsCoverOn(BOTTOM_EVEN_ROW, TOP_EVEN_PAIRS, 0, 16)
  {
  }

  lemma BottomEvenHighCovered()
    ensures PairsCoverOn(BOTTOM_EVEN_ROW, TOP_EVEN_PAIRS, 16, 32)
  {
  }

  lemma BottomEvenLowBorders()
    ensures BordersApartOn(BOTTOM_EVEN_ROW, BorderRow(BOTTOM, EVEN), BorderRow(TOP, EVEN), 0, 16)
  {
  }

  lemma BottomEvenHighBorders()
    ensures BordersApartOn(BOTTOM_EVEN_ROW, BorderRow(BOTTOM, EVEN), BorderRow(TOP, EVEN), 16, 32)
  {
  }

  lemma BottomOddPairs()
    ensures PairsOf(BOTTOM_ODD_ROW, BOTTOM_ODD_PAIRS)
  {
  }

  lemma BottomOddLowCovered()
    ensures PairsCoverOn(BOTTOM_ODD_ROW, TOP_ODD_PAIRS, 0, 16)
  {
  }

  lemma BottomOddHighCovered()
    ensures PairsCoverOn(BOTTOM_ODD_ROW, TOP_ODD_PAIRS, 16, 32)
  {
  }

  lemma BottomOddLowBorders()
    ensures BordersApartOn(BOTTOM_ODD_ROW, BorderRow(BOTTOM, ODD), BorderRow(TOP, ODD), 0, 16)
  {
  }

  lemma BottomOddHighBorders()
    ensures BordersApartOn(BOTTOM_ODD_ROW, BorderRow(BOTTOM, ODD), BorderRow(TOP, ODD), 16, 32)
  {
  }

  lemma TopEvenPairs()
    ensures PairsOf(TOP_EVEN_ROW, TOP_EVEN_PAIRS)
  {
  }

  lemma TopEvenLowCovered()
    ensures PairsCoverOn(TOP_EVEN_ROW, BOTTOM_EVEN_PAIRS, 0, 16)
  {
  }

  lemma TopEvenHighCovered()
    ensures PairsCoverOn(TOP_EVEN_ROW, BOTTOM_EVEN_PAIRS, 16, 32)
  {
  }

  lemma TopEvenLowBorders()
    ensures BordersApartOn(TOP_EVEN_ROW, BorderRow(TOP, EVEN), BorderRow(BOTTOM, EVEN), 0, 16)
  {
  }

  lemma TopEvenHighBorders()
    ensures BordersApartOn(TOP_EVEN_ROW, BorderRow(TOP, EVEN), BorderRow(BOTTOM, EVEN), 16, 32)
  {
  }

  lemma TopOddPairs()
    ensures PairsOf(TOP_ODD_ROW, TOP_ODD_PAIRS)
  {
  }

  lemma TopOddLowCovered()
    ensures PairsCoverOn(TOP_ODD_ROW, BOTTOM_ODD_PAIRS, 0, 16)
  {
  }

  lemma TopOddHighCovered()
    ensures PairsCoverOn(TOP_ODD_ROW, BOTTOM_ODD_PAIRS, 16, 32)
  {
  }

  lemma TopOddLowBorders()
    ensures BordersApartOn(TOP_ODD_ROW, BorderRow(TOP, ODD), BorderRow(BOTTOM, ODD), 0, 16)
  {
  }

  lemma TopOddHighBorders()
    ensures BordersApartOn(TOP_ODD_ROW, BorderRow(TOP, ODD), BorderRow(BOTTOM, ODD), 16, 32)
  {
  }

  /** The pairs of the row of the opposite direction. */
  function OppositePairs(d: Direction, p: Parity): (r: seq<int>)
  {
    match (d, p)
    case (BOTTOM, EVEN) => TOP_EVEN_PAIRS
    case (BOTTOM, ODD) => TOP_ODD_PAIRS
    case (TOP, EVEN) => BOTTOM_EVEN_PAIRS
    case (TOP, ODD) => BOTTOM_ODD_PAIRS
    case (LEFT, EVEN) => TOP_ODD_PAIRS
    case (LEFT, ODD) => TOP_EVEN_PAIRS
    case (RIGHT, EVEN) => BOTTOM_ODD_PAIRS
    case (RIGHT, ODD) => BOTTOM_EVEN_PAIRS
  }

  /** The facts above for every direction and parity: the rows of `LEFT` and
      `RIGHT` are those of `BOTTOM` and `TOP` at the other parity, and so
      are their border rows. */
  lemma OppositeRowsUndo(d: Direction, p: Parity)
    ensures Undoes(NeighbourRow(d, p), NeighbourRow(Opposite(d), p), OppositePairs(d, p))
    ensures Undoes(NeighbourRow(Opposite(d), p), NeighbourRow(d, p), OppositePairs(Opposite(d), p))
    ensures BordersApart(NeighbourRow(d, p), BorderRow(d, p), BorderRow(Opposite(d), p))
  {
    match (d, p)
    case (BOTTOM, EVEN) | (LEFT, ODD) =>
      BottomEvenPairs();
      TopEvenPairs();
      BottomEvenLowCovered();
      BottomEvenHighCovered();
      TopEvenLowCovered();
      TopEvenHighCovered();
      BottomEvenLowBorders();
      BottomEvenHighBorders();
    case (BOTTOM, ODD) | (LEFT, EVEN) =>
      BottomOddPairs();
      TopOddPairs();
      BottomOddLowCovered();
      BottomOddHighCovered();
      TopOddLowCovered();
      TopOddHighCovered();
      BottomOddLowBorders();
      BottomOddHighBorders();
    case (TOP, EVEN) | (RIGHT, ODD) =>
      TopEvenPairs();
      BottomEvenPairs();
      TopEvenLowCovered();
      TopEvenHighCovered();
      BottomEvenLowCovered();
      BottomEvenHighCovered();
      TopEvenLowBorders();
      TopEvenHighBorders();
    case (TOP, ODD) | (RIGHT, EVEN) =>
      TopOddPairs();
      BottomOddPairs();
      TopOddLowCovered();
      TopOddHighCovered();
      BottomOddLowCovered();
      BottomOddHighCovered();
      TopOddLowBorders();
      TopOddHighBorders();
  }

  /** A row whose lookup is undone by another has no repeats. */
  lemma UndoneDistinct(down: string, up: string, pairs: seq<int>)
    requires Undoes(down, up, pairs)
    ensures Distinct(down)
  {
    forall a, b | 0 <= a < b < 32
      ensures down[a] != down[b]
    {
      var ma := UndoingPosition(down, up, pairs, a);
      var mb := UndoingPosition(down, up, pairs, b);
      if down[a] == down[b] {
        Base32.CharactersDistinct(ma, mb);
        Base32.CharactersDistinct(a, b);
      }
    }
  }

  /** Where the lookup in `up` undoes the entry `down[j]`. */
  lemma UndoingPosition(down: string, up: string, pairs: seq<int>, j: nat) returns (m: nat)
    requires Undoes(down, up, pairs) && j < 32
    ensures m < 32 && up[m] == BASE32[j] && BASE32[m] == down[j]
  {
    assert PairCode(BASE32[j], down[j]) in pairs;
    var k :| 0 <= k < 32 && pairs[k] == PairCode(BASE32[j], down[j]);
    PairCodeInjective(up[k], BASE32[k], BASE32[j], down[j]);
    m := k;
  }

  /** On single characters, the `NEIGHBOURS` lookup of the opposite direction
      undoes the lookup of `d`, and a character off the border row of `d`
      moves to one off the border row of the opposite direction. */
  lemma NeighbourInverse(d: Direction, p: Parity, c: char)
    requires IsBase32(c)
    ensures 0 <= NeighbourIndex(d, p, c)
    ensures 0 <= NeighbourIndex(Opposite(d), p, BASE32[NeighbourIndex(d, p, c)])
    ensures BASE32[NeighbourIndex(Opposite(d), p, BASE32[NeighbourIndex(d, p, c)])] == c
    ensures !OnBorder(d, p, c) ==> !OnBorder(Opposite(d), p, BASE32[NeighbourIndex(d, p, c)])
  {
    NeighbourLookup(d, p, c);
    var row := NeighbourRow(d, p);
    var up := NeighbourRow(Opposite(d), p);
    var j := IndexOf(row, c);
    IndexOfFirst(row, c);
    OppositeRowsUndo(d, p);
    var m := UndoingPosition(row, up, OppositePairs(d, p), j);
    UndoneDistinct(up, row, OppositePairs(Opposite(d), p));
    IndexOfDistinct(up, m);
    IndexOfFirst(BorderRow(d, p), c);
    IndexOfFirst(BorderRow(Opposite(d), p), BASE32[j]);
  }

  /** Away from the edge of the world and off the border row, moving one cell
      in direction `d` and then one cell back in the opposite direction
      returns the original hash. */
  lemma AdjacentInverse(hash: string, d: Direction)
    requires hash != [] && Alphabetic(hash)
    requires !OnBorder(d, ParityOf(|hash|), hash[|hash| - 1])
    requires AdjacentHashAtBorder(hash, d) == Ok(None)
    requires AdjacentHash(hash, d).Ok?
    requires AdjacentHashAtBorder(AdjacentHash(hash, d).value, Opposite(d)) == Ok(None)
    ensures AdjacentHash(AdjacentHash(hash, d).value, Opposite(d)) == Ok(hash)
  {
    AdjacentReplacesLast(hash, d);
    var moved := LastReplacedBack(hash, d);
    AdjacentReplacesLast(moved, Opposite(d));
  }

  /** The same round trip on the string alone: replacing the last character
      through the table of `d` and then through the table of the opposite
      direction restores it, and the intermediate character is off the
      opposite border row. */
  lemma LastReplacedBack(hash: string, d: Direction) returns (moved: string)
    requires hash != [] && Alphabetic(hash)
    requires !OnBorder(d, ParityOf(|hash|), hash[|hash| - 1])
    ensures 0 <= NeighbourIndex(d, ParityOf(|hash|), hash[|hash| - 1])
    ensures moved == hash[..|hash| - 1] + [BASE32[NeighbourIndex(d, ParityOf(|hash|), hash[|hash| - 1])]]
    ensures |moved| == |hash| && Alphabetic(moved)
    ensures !OnBorder(Opposite(d), ParityOf(|moved|), moved[|moved| - 1])
    ensures 0 <= NeighbourIndex(Opposite(d), ParityOf(|moved|), moved[|moved| - 1])
    ensures moved[..|moved| - 1] + [BASE32[NeighbourIndex(Opposite(d), ParityOf(|moved|), moved[|moved| - 1])]] == hash
  {
    var n := |hash| - 1;
    var p := ParityOf(|hash|);
    NeighbourInverse(d, p, hash[n]);
    var k := NeighbourIndex(d, p, hash[n]);
    moved := hash[..n] + [BASE32[k]];
    AppendAlphabetic(hash[..n], k);
    assert moved[..n] == hash[..n];
    LastSplit(hash);
  }

  lemma LastSplit(s: string)
    requires s != []
    ensures s[..|s| - 1] + [s[|s| - 1]] == s
  {
  }

  /** `step` applied `n` times from `hash`; the first failure stops the walk. */
  function Iterate(step: string -> Result<string>, hash: string, n: nat): Result<string>
  {
    if n == 0 then Ok(hash)
    else
      var prev := Iterate(step, hash, n - 1);
      if prev.Fail? then prev else step(prev.value)
  }

  /** One call of `adjacentHash` in direction `d`. */
  function Mover(d: Direction): string -> Result<string>
  {
    h => AdjacentHash(h, d)
  }

  /** `h` after `n` steps of `adjacentHash` in direction `d`. */
  function Walk(hash: string, d: Direction, n: nat): Result<string>
  {
    Iterate(Mover(d), hash, n)
  }

  /** `Int.MAX_VALUE`. */
  const INT_MAX: int := 0x7fff_ffff

  /** `abs(steps.toDouble()).toInt()` for an `Int`: the magnitude, saturated
      at `Int.MAX_VALUE` (only `Int.MIN_VALUE` is affected). */
  function Magnitude(steps: int): (r: nat)
    requires -INT_MAX - 1 <= steps <= INT_MAX
    ensures r <= INT_MAX
    ensures steps > -INT_MAX - 1 ==> r == if steps < 0 then -steps else steps
  {
    var m := if steps < 0 then -steps else steps;
    if m > INT_MAX then INT_MAX else m
  }

  /** What `adjacentHash(hash, direction, steps)` returns: `steps` steps in
      `direction`, or for negative `steps` the magnitude in the opposite
      direction. */
  function AdjacentSteps(hash: string, d: Direction, steps: int): Result<string>
    requires -INT_MAX - 1 <= steps <= INT_MAX
  {
    if steps < 0 then Walk(hash, Opposite(d), Magnitude(steps)) else Walk(hash, d, steps)
  }

  /** `adjacentHash(hash, direction, steps)`: recurse once with the opposite
      direction for negative `steps`, otherwise step `steps` times. */
  method AdjacentHashSteps(hash: string, d: Direction, steps: int) returns (r: Result<string>)
    requires -INT_MAX - 1 <= steps <= INT_MAX
    ensures r == AdjacentSteps(hash, d, steps)
    decreases if steps < 0 then 1 else 0
  {
    if steps < 0 {
      r := AdjacentHashSteps(hash, Opposite(d), Magnitude(steps));
    } else {
      r := Repeat(Mover(d), hash, steps);
    }
  }

  /** The loop `for (i in 0 until steps) h = step(h)`; a failing step ends it
      with that failure. */
  method Repeat(step: string -> Result<string>, hash: string, n: nat) returns (r: Result<string>)
    ensures r == Iterate(step, hash, n)
  {
    var h := hash;
    for i := 0 to n
      invariant Iterate(step, hash, i) == Ok(h)
    {
      var next := step(h);
      if next.Fail? {
        IterateStopsAtFailure(step, hash, i + 1, n);
        return next;
      }
      h := next.value;
    }
    r := Ok(h);
  }

  /** Once a walk fails it fails with the same message however far it goes. */
  lemma {:induction false} IterateStopsAtFailure(step: string -> Result<string>, hash: string, m: nat, n: nat)
    requires m <= n && Iterate(step, hash, m).Fail?
    ensures Iterate(step, hash, n) == Iterate(step, hash, m)
    decreases n
  {
    if m < n {
      IterateStopsAtFailure(step, hash, m, n - 1);
    }
  }

  /** Zero steps give the hash back. */
  lemma AdjacentZeroSteps(hash: string, d: Direction)
    ensures AdjacentSteps(hash, d, 0) == Ok(hash)
  {
  }

  /** A negative count walks the same distance the opposite way. */
  lemma AdjacentNegativeSteps(hash: string, d: Direction, steps: int)
    requires -INT_MAX <= steps < 0
    ensures AdjacentSteps(hash, d, steps) == AdjacentSteps(hash, Opposite(d), -steps)
  {
  }

  /** Walking a + b steps is walking a steps and then b more. */
  lemma {:induction false} IterateSplits(step: string -> Result<string>, hash: string, a: nat, b: nat)
    requires Iterate(step, hash, a).Ok?
    ensures Iterate(step, hash, a + b) == Iterate(step, Iterate(step, hash, a).value, b)
    decreases b
  {
    if b > 0 {
      IterateSplits(step, hash, a, b - 1);
    }
  }

  /** `neighbours(hash)`: left, right, top, bottom, then top and bottom of the
      left neighbour and top and bottom of the right neighbour; the first
      failing call fails the whole. */
  function Neighbours(hash: string): Result<seq<string>>
  {
    NeighboursWith(AdjacentHash, hash)
  }

  /** The eight calls of `neighbours`, made with `adjacent`, in the order in
      which they are evaluated. */
  function NeighboursWith(adjacent: (string, Direction) -> Result<string>, hash: string): Result<seq<string>>
  {
    var left := adjacent(hash, LEFT);
    if left.Fail? then Fail(left.reason) else
    var right := adjacent(hash, RIGHT);
    if right.Fail? then Fail(right.reason) else
    Collect([left, right, adjacent(hash, TOP), adjacent(hash, BOTTOM),
      adjacent(left.value, TOP), adjacent(left.value, BOTTOM),
      adjacent(right.value, TOP), adjacent(right.value, BOTTOM)])
  }

  /** The values of a list of calls, or the failure of the first that fails. */
  function Collect(calls: seq<Result<string>>): (r: Result<seq<string>>)
    ensures r.Ok? <==> forall k | 0 <= k < |calls| :: calls[k].Ok?
    ensures r.Ok? ==> |r.value| == |calls| && forall k | 0 <= k < |calls| :: Ok(r.value[k]) == calls[k]
    ensures r.Fail? ==> exists k | 0 <= k < |calls| ::
      calls[k].Fail? && calls[k].reason == r.reason && (forall j | 0 <= j < k :: calls[j].Ok?)
  {
    if calls == [] then Ok([])
    else if calls[0].Fail? then Fail(calls[0].reason)
    else
      var rest := Collect(calls[1..]);
      if rest.Fail? then Fail(rest.reason)
      else
        assert forall k | 1 <= k < |calls| :: calls[k] == calls[1..][k - 1];
        Ok([calls[0].value] + rest.value)
  }

  /** With any adjacency function, the eight results come in the documented
      order, each from the right hash in the right direction. */
  lemma NeighboursWithOrder(adjacent: (string, Direction) -> Result<string>, hash: string)
    requires NeighboursWith(adjacent, hash).Ok?
    ensures var ns := NeighboursWith(adjacent, hash).value;
      var left := adjacent(hash, LEFT);
      var right := adjacent(hash, RIGHT);
      |ns| == 8 && left.Ok? && right.Ok?
      && Ok(ns[0]) == left && Ok(ns[1]) == right
      && Ok(ns[2]) == adjacent(hash, TOP) && Ok(ns[3]) == adjacent(hash, BOTTOM)
      && Ok(ns[4]) == adjacent(left.value, TOP) && Ok(ns[5]) == adjacent(left.value, BOTTOM)
      && Ok(ns[6]) == adjacent(right.value, TOP) && Ok(ns[7]) == adjacent(right.value, BOTTOM)
  {
    var left := adjacent(hash, LEFT);
    var right := adjacent(hash, RIGHT);
    var calls := [left, right, adjacent(hash, TOP), adjacent(hash, BOTTOM),
      adjacent(left.value, TOP), adjacent(left.value, BOTTOM),
      adjacent(right.value, TOP), adjacent(right.value, BOTTOM)];
    assert NeighboursWith(adjacent, hash) == Collect(calls);
  }

  /** With any adjacency function, `neighbours` fails exactly when one of its
      eight calls fails. */
  lemma NeighboursWithSucceed(adjacent: (string, Direction) -> Result<string>, hash: string)
    ensures var left := adjacent(hash, LEFT);
      var right := adjacent(hash, RIGHT);
      NeighboursWith(adjacent, hash).Ok? <==>
        left.Ok? && right.Ok?
        && adjacent(hash, TOP).Ok? && adjacent(hash, BOTTOM).Ok?
        && adjacent(left.value, TOP).Ok? && adjacent(left.value, BOTTOM).Ok?
        && adjacent(right.value, TOP).Ok? && adjacent(right.value, BOTTOM).Ok?
  {
    var left := adjacent(hash, LEFT);
    var right := adjacent(hash, RIGHT);
    if left.Ok? && right.Ok? {
      var calls := [left, right, adjacent(hash, TOP), adjacent(hash, BOTTOM),
        adjacent(left.value, TOP), adjacent(left.value, BOTTOM),
        adjacent(right.value, TOP), adjacent(right.value, BOTTOM)];
      assert NeighboursWith(adjacent, hash) == Collect(calls);
      if NeighboursWith(adjacent, hash).Fail? {
        var k :| 0 <= k < |calls| && calls[k].Fail?;
        assert k == 0 || k == 1 || k == 2 || k == 3 || k == 4 || k == 5 || k == 6 || k == 7;
      } else {
        assert calls[2].Ok? && calls[3].Ok? && calls[4].Ok? && calls[5].Ok? && calls[6].Ok? && calls[7].Ok?;
      }
    }
  }

  /** The eight neighbours in their documented order, each a neighbour of the
      right hash in the right direction. */
  lemma NeighboursOrder(hash: string)
    requires Neighbours(hash).Ok?
    ensures var ns := Neighbours(hash).value;
      var left := AdjacentHash(hash, LEFT);
      var right := AdjacentHash(hash, RIGHT);
      |ns| == 8 && left.Ok? && right.Ok?
      && Ok(ns[0]) == left && Ok(ns[1]) == right
      && Ok(ns[2]) == AdjacentHash(hash, TOP) && Ok(ns[3]) == AdjacentHash(hash, BOTTOM)
      && Ok(ns[4]) == AdjacentHash(left.value, TOP) && Ok(ns[5]) == AdjacentHash(left.value, BOTTOM)
      && Ok(ns[6]) == AdjacentHash(right.value, TOP) && Ok(ns[7]) == AdjacentHash(right.value, BOTTOM)
  {
    NeighboursWithOrder(AdjacentHash, hash);
  }

  /** `neighbours` fails exactly when one of its eight calls fails. */
  lemma NeighboursSucceed(hash: string)
    ensures var left := AdjacentHash(hash, LEFT);
      var right := AdjacentHash(hash, RIGHT);
      Neighbours(hash).Ok? <==>
        left.Ok? && right.Ok?
        && AdjacentHash(hash, TOP).Ok? && AdjacentHash(hash, BOTTOM).Ok?
        && AdjacentHash(left.value, TOP).Ok? && AdjacentHash(left.value, BOTTOM).Ok?
        && AdjacentHash(right.value, TOP).Ok? && AdjacentHash(right.value, BOTTOM).Ok?
  {
    NeighboursWithSucceed(AdjacentHash, hash);
  }
}
