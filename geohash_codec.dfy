/** The geohash codec of `Geohash.kt`: the bit-interleaving encoder
    `encodeToLong`, the renderer `fromLongToString`, the decoder
    `decodeGeohash`, and the pure `encodeGeohash`, `hashContains`,
    `widthDegrees` and `heightDegrees` built on them. The imperative members
    are proved against the bisection of module `Bisection`. */
module GeohashCodec {
  import opened Wrappers
  import opened GeohashInternal
  import opened Bisection
  import opened Longs
  import Base32

  /** `MAX_HASH_LENGTH`. */
  const MAX_HASH_LENGTH: nat := 12

  /** `Geohash.BASE32`: the same 32 characters as the alphabet of `Base32.kt`. */
  const BASE32: string := Base32.CHARACTERS

  /** `PRECISION`, the tolerance of the border tests. */
  const PRECISION: real := 0.000000000001

  /** `BITS`: the masks that pick the five bits of a character, top bit first. */
  const BITS: seq<bv32> := [16, 8, 4, 2, 1]

  /** `String.indexOf(c)`: the first position of `c`, or -1. */
  function IndexOf(s: string, c: char): (r: int)
    ensures -1 <= r < |s|
  {
    if s == [] then -1
    else if s[0] == c then 0
    else
      var k := IndexOf(s[1..], c);
      if k < 0 then -1 else k + 1
  }

  /** `indexOf` finds the first occurrence, and returns -1 exactly when there
      is none. */
  lemma {:induction false} IndexOfFirst(s: string, c: char)
    ensures IndexOf(s, c) >= 0 ==> s[IndexOf(s, c)] == c && c !in s[..IndexOf(s, c)]
    ensures IndexOf(s, c) < 0 <==> c !in s
  {
    if s != [] && s[0] != c {
      IndexOfFirst(s[1..], c);
      var k := IndexOf(s[1..], c);
      assert s == [s[0]] + s[1..];
      if k >= 0 {
        assert s[..k + 1] == [s[0]] + s[1..][..k];
      }
    }
  }

  /** In the alphabet, `indexOf` inverts indexing: its characters are distinct. */
  lemma IndexOfBase32(i: nat)
    requires i < 32
    ensures IndexOf(BASE32, BASE32[i]) == i
  {
    IndexOfFirst(BASE32, BASE32[i]);
    var r := IndexOf(BASE32, BASE32[i]);
    Base32.CharactersDistinct(r, i);
  }

  /** The value a decoded character stands for: its index, and 31 for a
      character outside the alphabet, whose `indexOf` of -1 has every bit set. */
  function Digit(c: char): (r: nat)
    ensures r < 32
  {
    var d := IndexOf(BASE32, c);
    if d < 0 then 31 else d
  }

  /** The 32-bit pattern of `cd` that `refineInterval` masks: -1 is all ones. */
  function Pattern(cd: int): bv32
    requires -1 <= cd < 32
  {
    if cd < 0 then 0xFFFF_FFFF else cd as bv32
  }

  /** The five bits of a character's value, most significant first. */
  function DigitBits(v: nat): (r: seq<bool>)
    requires v < 32
    ensures |r| == 5
  {
    [v >= 16, v % 16 >= 8, v % 8 >= 4, v % 4 >= 2, v % 2 == 1]
  }

  /** Mask j of `BITS` tests bit j of the character's value. */
  lemma GroupBit(cd: int, j: nat)
    requires -1 <= cd < 32 && j < 5
    ensures (Pattern(cd) & BITS[j] != 0) == DigitBits(if cd < 0 then 31 else cd)[j]
  {
    if cd >= 0 {
      if j == 0 {
        MaskSixteen(cd);
      } else if j == 1 {
        MaskEight(cd);
      } else if j == 2 {
        MaskFour(cd);
      } else if j == 3 {
        MaskTwo(cd);
      } else {
        MaskOne(cd);
      }
    }
  }

  lemma MaskSixteen(cd: int)
    requires 0 <= cd < 32
    ensures (Pattern(cd) & 16 != 0) == (cd >= 16)
  {
    var x := cd as bv32;
    assert x < 32;
  }

  lemma MaskEight(cd: int)
    requires 0 <= cd < 32
    ensures (Pattern(cd) & 8 != 0) == (cd % 16 >= 8)
  {
    var x := cd as bv32;
    assert x < 32;
  }

  lemma MaskFour(cd: int)
    requires 0 <= cd < 32
    ensures (Pattern(cd) & 4 != 0) == (cd % 8 >= 4)
  {
    var x := cd as bv32;
    assert x < 32;
  }

  lemma MaskTwo(cd: int)
    requires 0 <= cd < 32
    ensures (Pattern(cd) & 2 != 0) == (cd % 4 >= 2)
  {
    var x := cd as bv32;
    assert x < 32;
  }

  lemma MaskOne(cd: int)
    requires 0 <= cd < 32
    ensures (Pattern(cd) & 1 != 0) == (cd % 2 == 1)
  {
    var x := cd as bv32;
    assert x < 32;
  }

  function Bit(b: bool): nat
  {
    if b then 1 else 0
  }

  /** The number of five bits, digit by digit. */
  lemma NumOfFive(g: seq<bool>)
    requires |g| == 5
    ensures Num(g) == 16 * Bit(g[0]) + 8 * Bit(g[1]) + 4 * Bit(g[2]) + 2 * Bit(g[3]) + Bit(g[4])
  {
    var g1, g2, g3, g4 := g[..1], g[..2], g[..3], g[..4];
    assert g1[..0] == [];
    assert Num(g1) == Bit(g[0]);
    assert g2[..1] == g1;
    assert Num(g2) == 2 * Num(g1) + Bit(g[1]);
    assert g3[..2] == g2;
    assert Num(g3) == 2 * Num(g2) + Bit(g[2]);
    assert g4[..3] == g3;
    assert Num(g4) == 2 * Num(g3) + Bit(g[3]);
    assert Num(g) == 2 * Num(g4) + Bit(g[4]);
  }

  /** The five bits of a value read back as a number give the value. */
  lemma NumOfDigitBits(v: nat)
    requires v < 32
    ensures Num(DigitBits(v)) == v
  {
    var d := DigitBits(v);
    NumOfFive(d);
    DigitSum(v);
  }

  lemma DigitSum(v: nat)
    requires v < 32
    ensures 16 * Bit(v >= 16) + 8 * Bit(v % 16 >= 8) + 4 * Bit(v % 8 >= 4) + 2 * Bit(v % 4 >= 2) + Bit(v % 2 == 1) == v
  {
  }

  /** Any five bits are the bits of their number. */
  lemma DigitBitsOfNum(g: seq<bool>)
    requires |g| == 5
    ensures DigitBits(Num(g)) == g
  {
    NumOfFive(g);
    FiveBits(g[0], g[1], g[2], g[3], g[4]);
    assert g == [g[0], g[1], g[2], g[3], g[4]];
  }

  lemma FiveBits(b0: bool, b1: bool, b2: bool, b3: bool, b4: bool)
    ensures DigitBits(16 * Bit(b0) + 8 * Bit(b1) + 4 * Bit(b2) + 2 * Bit(b3) + Bit(b4)) == [b0, b1, b2, b3, b4]
  {
  }

  /** `c` is a character of the alphabet: `indexOf` finds it. */
  predicate IsBase32(c: char)
  {
    BASE32[Digit(c)] == c
  }

  lemma IsBase32Member(c: char)
    ensures IsBase32(c) <==> c in BASE32
  {
    IndexOfFirst(BASE32, c);
  }

  /** A character of the alphabet decodes to its position. */
  lemma DigitOfBase32(v: nat)
    requires v < 32
    ensures Digit(BASE32[v]) == v
  {
    IndexOfBase32(v);
  }

  /** The bits `decodeGeohash` feeds to the bisection: five per character. */
  function HashBits(s: string): (r: seq<bool>)
    ensures |r| == 5 * |s|
  {
    if s == [] then []
    else HashBits(s[..|s| - 1]) + DigitBits(Digit(s[|s| - 1]))
  }

  /** The characters of a bit string, five bits to a character (counted
      from the end; a string of whole characters is the only use). */
  function HashString(bits: seq<bool>): (r: string)
    ensures |r| == |bits| / 5
  {
    if |bits| < 5 then []
    else HashString(bits[..|bits| - 5]) + [BASE32[Num(bits[|bits| - 5..])]]
  }

  lemma HashBitsSnoc(s: string, c: char)
    ensures HashBits(s + [c]) == HashBits(s) + DigitBits(Digit(c))
  {
    assert (s + [c])[..|s|] == s;
  }

  lemma HashStringSnoc(p: seq<bool>, g: seq<bool>)
    requires |p| % 5 == 0 && |g| == 5
    ensures HashString(p + g) == HashString(p) + [BASE32[Num(g)]]
  {
    var q := p + g;
    assert q[..|q| - 5] == p;
    assert q[|q| - 5..] == g;
  }

  /** Character k stands for bits 5 k to 5 k + 4. */
  lemma {:induction false} HashStringAt(bits: seq<bool>, k: nat)
    requires |bits| % 5 == 0 && k < |bits| / 5
    ensures HashString(bits)[k] == BASE32[Num(bits[5 * k..5 * k + 5])]
    decreases |bits|
  {
    assert |bits| >= 5;
    var n := |bits| - 5;
    var prev := HashString(bits[..n]);
    assert HashString(bits) == prev + [BASE32[Num(bits[n..])]];
    assert |prev| == n / 5 == |bits| / 5 - 1;
    if 5 * k < n {
      HashStringAt(bits[..n], k);
      assert bits[..n][5 * k..5 * k + 5] == bits[5 * k..5 * k + 5];
    } else {
      assert |prev| == k && bits[n..] == bits[5 * k..5 * k + 5];
    }
  }

  /** Fewer bits give a prefix of the characters. */
  lemma {:induction false} HashStringPrefix(bits: seq<bool>, m: nat)
    requires |bits| % 5 == 0 && 5 * m <= |bits|
    ensures HashString(bits[..5 * m]) == HashString(bits)[..m]
    decreases |bits|
  {
    if 5 * m < |bits| {
      var n := |bits| - 5;
      HashStringPrefix(bits[..n], m);
      assert bits[..n][..5 * m] == bits[..5 * m];
    } else {
      assert bits[..5 * m] == bits;
    }
  }

  /** Reading the characters of a bit string back gives the bit string. */
  lemma {:induction false} HashBitsOfHashString(bits: seq<bool>)
    requires |bits| % 5 == 0
    ensures HashBits(HashString(bits)) == bits
    decreases |bits|
  {
    if bits != [] {
      var n := |bits| - 5;
      var p := bits[..n];
      var g := bits[n..];
      assert bits == p + g;
      HashStringSnoc(p, g);
      HashBitsSnoc(HashString(p), BASE32[Num(g)]);
      HashBitsOfHashString(p);
      DigitOfBase32(Num(g));
      DigitBitsOfNum(g);
    }
  }

  /** Conversely a string over the alphabet is the characters of its bits. */
  lemma {:induction false} HashStringOfHashBits(s: string)
    requires forall k | 0 <= k < |s| :: IsBase32(s[k])
    ensures HashString(HashBits(s)) == s
  {
    if s != [] {
      var n := |s| - 1;
      var t := s[..n];
      var d := Digit(s[n]);
      assert s == t + [s[n]];
      HashBitsSnoc(t, s[n]);
      HashStringSnoc(HashBits(t), DigitBits(d));
      HashStringOfHashBits(t);
      NumOfDigitBits(d);
      assert BASE32[d] == s[n];
    }
  }

  /** The number of bisection steps of `encodeToLong`: `5 * length` as Kotlin's
      `ushr` sees it, through its low six bits only. */
  function Steps(length: int): (r: nat)
    ensures r < 64
    ensures 1 <= length <= MAX_HASH_LENGTH ==> r == 5 * length
  {
    (5 * length) % 64
  }

  /** The word `encodeToLong` returns: the encoder's bits packed from the top,
      or-ed with `length.toLong()`. */
  function EncodeWord(latitude: real, longitude: real, length: int): Long
  {
    Or(Pack(EncodeBits(latitude, longitude, Steps(length))), LongOf(length))
  }

  /** `encodeToLong(latitude, longitude, length)`: bisect longitude and
      latitude in turn, setting one bit per step from the top until the bit
      reaches `FIRST_BIT_FLAGGED ushr (5 * length)`. */
  method EncodeToLong(latitude: real, longitude: real, length: int) returns (r: Long)
    ensures r == EncodeWord(latitude, longitude, length)
  {
    var isEven := true;
    var minLat := -90.0;
    var maxLat := 90.0;
    var minLon := -180.0;
    var maxLon := 180.0;
    var bit := FIRST_BIT_FLAGGED;
    var g: Long := 0;
    var target := Ushr(FIRST_BIT_FLAGGED, 5 * length);
    ghost var steps := Steps(length);
    MaskIsShiftedTop(steps);
    assert target == Mask(steps);
    MaskIsShiftedTop(0);
    ghost var i: nat := 0;
    ghost var bits: seq<bool> := [];
    while bit != target
      invariant target == Mask(steps)
      invariant i == |bits| <= steps
      invariant bit == Mask(i)
      invariant isEven == (i % 2 == 0)
      invariant bits == EncodeBits(latitude, longitude, i)
      invariant g == Pack(bits)
      invariant Cell(Interval(minLat, maxLat), Interval(minLon, maxLon)) == CellOf(bits)
      decreases steps - i
    {
      assert i < steps;
      ghost var b := NextBit(latitude, longitude, CellOf(bits), i);
      PackStep(bits, b);
      DecodeStep(bits, b);
      if isEven {
        var mid := (minLon + maxLon) / 2.0;
        if longitude >= mid {
          g := Or(g, bit);
          minLon := mid;
        } else {
          maxLon := mid;
        }
      } else {
        var mid := (minLat + maxLat) / 2.0;
        if latitude >= mid {
          g := Or(g, bit);
          minLat := mid;
        } else {
          maxLat := mid;
        }
      }
      isEven := !isEven;
      Parity(i);
      MaskHalves(i);
      bit := Ushr(bit, 1);
      bits := bits + [b];
      i := i + 1;
    }
    MaskInjective(i, steps);
    r := Or(g, LongOf(length));
  }

  lemma Parity(i: nat)
    ensures ((i + 1) % 2 == 0) == (i % 2 != 0)
  {
  }

  /** For lengths 1 to 12 the word is the 5 * length encoder bits at the top
      and the length at the bottom: */
  lemma EncodeWordValue(latitude: real, longitude: real, length: int)
    requires 1 <= length <= MAX_HASH_LENGTH
    ensures EncodeWord(latitude, longitude, length)
      == Num(EncodeBits(latitude, longitude, 5 * length)) * Pow2Nat(64 - 5 * length) + length
    ensures length < Pow2Nat(64 - 5 * length) == 16 * Pow2Nat(60 - 5 * length)
  {
    var bits := EncodeBits(latitude, longitude, 5 * length);
    var e := Pow2Nat(64 - 5 * length);
    Pow2Split(4, 60 - 5 * length);
    assert Pow2Nat(4) == 16;
    DivModOf(Num(bits), e, 0);
    BitOrDisjoint(Pack(bits), length, 64 - 5 * length);
  }

  /** the interleaved bits are the word's top 5 * length bits, everything
      below them is the length, and the low nibble is the length. */
  lemma EncodeWordLayout(latitude: real, longitude: real, length: int)
    requires 1 <= length <= MAX_HASH_LENGTH
    ensures EncodeWord(latitude, longitude, length) / Pow2Nat(64 - 5 * length)
      == Num(EncodeBits(latitude, longitude, 5 * length))
    ensures EncodeWord(latitude, longitude, length) % Pow2Nat(64 - 5 * length) == length
  {
    EncodeWordValue(latitude, longitude, length);
    var n := Num(EncodeBits(latitude, longitude, 5 * length));
    DivModOf(n, Pow2Nat(64 - 5 * length), length);
  }

  lemma EncodeWordNibble(latitude: real, longitude: real, length: int)
    requires 1 <= length <= MAX_HASH_LENGTH
    ensures LowerNibble(EncodeWord(latitude, longitude, length)) == length
  {
    EncodeWordValue(latitude, longitude, length);
    var n := Num(EncodeBits(latitude, longitude, 5 * length));
    SixteenthPart(n, Pow2Nat(60 - 5 * length), length);
  }

  lemma SixteenthPart(n: nat, f: nat, length: nat)
    requires length < 16
    ensures (n * (16 * f) + length) % 16 == length
  {
    assert n * (16 * f) == (n * f) * 16;
    DivModOf(n * f, 16, length);
  }

  /** `fromLongToString`'s view of a word: rejected unless the low nibble is
      a length from 1 to 12, otherwise that many characters read from the
      5-bit groups at the top of the word. */
  function LongToString(hash: Long): (r: Result<string>)
    ensures r.Ok? <==> 1 <= LowerNibble(hash) <= MAX_HASH_LENGTH
    ensures r.Ok? ==> |r.value| == LowerNibble(hash)
  {
    var length := LowerNibble(hash);
    if length > MAX_HASH_LENGTH || length < 1 then Fail("invalid long geohash")
    else Ok(seq(length, pos requires 0 <= pos < length => BASE32[GroupAt(hash, pos)]))
  }

  /** Every character of a rendered word is one of the alphabet. */
  lemma LongToStringAlphabet(hash: Long)
    requires LongToString(hash).Ok?
    ensures forall k | 0 <= k < |LongToString(hash).value| :: IsBase32(LongToString(hash).value[k])
  {
    var s := LongToString(hash).value;
    forall k | 0 <= k < |s|
      ensures IsBase32(s[k])
    {
      DigitOfBase32(GroupAt(hash, k));
    }
  }

  /** `fromLongToString(hash)`: check the nibble, then take the top five bits
      of the word and shift it left by five, once per character. */
  method FromLongToString(hash: Long) returns (r: Result<string>)
    ensures r == LongToString(hash)
  {
    var newHash := hash;
    var length := LowerNibble(newHash);
    if length > MAX_HASH_LENGTH || length < 1 {
      return Fail("invalid long geohash");
    }
    var geohash := new char[length];
    for pos := 0 to length
      invariant newHash == Shifted(hash, pos)
      invariant forall k | 0 <= k < pos :: geohash[k] == BASE32[GroupAt(hash, k)]
    {
      TopOfShifted(hash, pos);
      geohash[pos] := BASE32[Ushr(newHash, 59)];
      newHash := Shl(newHash, 5);
    }
    assert geohash[..] == LongToString(hash).value;
    r := Ok(geohash[..]);
  }

  /** Group `pos` of the word of a bit string is the number of the bit
      string's five bits at 5 * pos. */
  lemma GroupOfWord(w: Long, bits: seq<bool>, length: nat, pos: nat)
    requires 1 <= length <= MAX_HASH_LENGTH && |bits| == 5 * length && pos < length
    requires w == Num(bits) * Pow2Nat(64 - 5 * length) + length
    requires length < Pow2Nat(64 - 5 * length)
    ensures GroupAt(w, pos) == Num(bits[5 * pos..5 * pos + 5])
  {
    var e := Pow2Nat(64 - 5 * length);
    var f := Pow2Nat(5 * length - 5 - 5 * pos);
    var head := bits[..5 * pos + 5];
    var tail := bits[5 * pos + 5..];
    Pow2Split(64 - 5 * length, 5 * length - 5 - 5 * pos);
    SplitNum(bits, 5 * pos + 5);
    DropLow(w, Num(bits), Num(head), Num(tail), f, e, length);
    LastGroup(head, 5 * pos);
    HeadSlices(bits, 5 * pos, 5 * pos + 5);
  }

  /** Dividing away the low part of a two-level split leaves the high part. */
  lemma DropLow(w: nat, q: nat, h: nat, t: nat, f: nat, e: nat, r: nat)
    requires w == q * e + r && r < e
    requires q == h * f + t && t < f
    ensures w / (e * f) == h
  {
    DivDiv(w, e, f);
    DivModOf(q, e, r);
    DivModOf(h, f, t);
  }

  /** The last five bits of a bit string are its number modulo 32. */
  lemma LastGroup(bits: seq<bool>, k: nat)
    requires |bits| == k + 5
    ensures Num(bits) % 32 == Num(bits[k..])
  {
    SplitNum(bits, k);
    assert Pow2Nat(5) == 32;
    DivModOf(Num(bits[..k]), 32, Num(bits[k..]));
  }

  /** Splitting a bit string at k splits its number. */
  lemma SplitNum(bits: seq<bool>, k: nat)
    requires k <= |bits|
    ensures Num(bits) == Num(bits[..k]) * Pow2Nat(|bits| - k) + Num(bits[k..])
  {
    assert bits == bits[..k] + bits[k..];
    NumAppend(bits[..k], bits[k..]);
  }

  lemma HeadSlices(bits: seq<bool>, i: nat, j: nat)
    requires i <= j <= |bits|
    ensures bits[..j][..i] == bits[..i] && bits[..j][i..] == bits[i..j]
  {
  }

  /** A word whose low nibble is `length` and whose groups are the numbers of
      the five-bit pieces of `bits` renders as the characters of `bits`. */
  lemma RenderWord(w: Long, bits: seq<bool>, length: nat)
    requires 1 <= length <= MAX_HASH_LENGTH && |bits| == 5 * length
    requires LowerNibble(w) == length
    requires forall pos | 0 <= pos < length :: GroupAt(w, pos) == Num(bits[5 * pos..5 * pos + 5])
    ensures LongToString(w) == Ok(HashString(bits))
  {
    var s := seq(length, pos requires 0 <= pos < length => BASE32[GroupAt(w, pos)]);
    assert LongToString(w) == Ok(s);
    FiveGroups(|bits|, length);
    var h := HashString(bits);
    forall pos | 0 <= pos < length
      ensures s[pos] == h[pos]
    {
      HashStringAt(bits, pos);
    }
    assert s == h;
  }

  lemma FiveGroups(n: nat, length: nat)
    requires n == 5 * length
    ensures n % 5 == 0 && n / 5 == length
  {
    DivModOf(length, 5, 0);
  }

  /** Rendering an encoded word gives the characters of the encoder's bits. */
  lemma RenderEncoded(latitude: real, longitude: real, length: int)
    requires 1 <= length <= MAX_HASH_LENGTH
    ensures LongToString(EncodeWord(latitude, longitude, length))
      == Ok(HashString(EncodeBits(latitude, longitude, 5 * length)))
  {
    var bits := EncodeBits(latitude, longitude, 5 * length);
    var w := EncodeWord(latitude, longitude, length);
    EncodeWordNibble(latitude, longitude, length);
    forall pos | 0 <= pos < length
      ensures GroupAt(w, pos) == Num(bits[5 * pos..5 * pos + 5])
    {
      GroupOfEncoded(latitude, longitude, length, pos);
    }
    RenderWord(w, bits, length);
  }

  lemma GroupOfEncoded(latitude: real, longitude: real, length: int, pos: nat)
    requires 1 <= length <= MAX_HASH_LENGTH && pos < length
    ensures var bits := EncodeBits(latitude, longitude, 5 * length);
      GroupAt(EncodeWord(latitude, longitude, length), pos) == Num(bits[5 * pos..5 * pos + 5])
  {
    EncodeWordValue(latitude, longitude, length);
    GroupOfWord(EncodeWord(latitude, longitude, length), EncodeBits(latitude, longitude, 5 * length), length, pos);
  }

  /** The point `decodeGeohash` returns: the centre of the cell of the
      hash's bits. */
  function DecodedCentre(geohash: string): (real, real)
  {
    Centre(CellOf(HashBits(geohash)))
  }

  /** The cell after refining `c` by the first j of `bits`, the first of them
      being bit number k of the hash. */
  function RefineBits(c: Cell, k: nat, bits: seq<bool>, j: nat): Cell
    requires j <= |bits|
  {
    if j == 0 then c else Refine(RefineBits(c, k, bits, j - 1), k + j - 1, bits[j - 1])
  }

  /** The cell `decodeGeohash` has reached after the characters of s. */
  function DecodeCell(s: string): Cell
  {
    if s == [] then WORLD
    else RefineBits(DecodeCell(s[..|s| - 1]), 5 * (|s| - 1), DigitBits(Digit(s[|s| - 1])), 5)
  }

  /** Refining by some bits is the cell of the extended bit string. */
  lemma {:induction false} RefineBitsCell(bits: seq<bool>, more: seq<bool>, j: nat)
    requires j <= |more|
    ensures RefineBits(CellOf(bits), |bits|, more, j) == CellOf(bits + more[..j])
  {
    if j == 0 {
      assert bits + more[..0] == bits;
    } else {
      var prev := bits + more[..j - 1];
      RefineBitsCell(bits, more, j - 1);
      RefineBitsNext(CellOf(bits), |bits|, more, j - 1);
      AppendNext(bits, more, j - 1);
      DecodeStep(prev, more[j - 1]);
    }
  }

  lemma AppendNext(a: seq<bool>, b: seq<bool>, j: nat)
    requires j < |b|
    ensures a + b[..j + 1] == (a + b[..j]) + [b[j]]
  {
    assert b[..j + 1] == b[..j] + [b[j]];
  }

  /** The decoder's cell is the cell of the hash's bits. */
  lemma {:induction false} DecodeCellIsCellOf(s: string)
    ensures DecodeCell(s) == CellOf(HashBits(s))
  {
    if s != [] {
      var n := |s| - 1;
      var more := DigitBits(Digit(s[n]));
      DecodeCellIsCellOf(s[..n]);
      RefineBitsCell(HashBits(s[..n]), more, 5);
      assert more[..5] == more;
    }
  }

  lemma DecodeCellNext(s: string, i: nat)
    requires i < |s|
    ensures DecodeCell(s[..i + 1]) == RefineBits(DecodeCell(s[..i]), 5 * i, DigitBits(Digit(s[i])), 5)
  {
    assert s[..i + 1][..i] == s[..i];
  }

  lemma RefineBitsNext(c: Cell, k: nat, bits: seq<bool>, j: nat)
    requires j < |bits|
    ensures RefineBits(c, k, bits, j + 1) == Refine(RefineBits(c, k, bits, j), k + j, bits[j])
  {
  }

  lemma DecodeCentre(s: string)
    ensures Centre(DecodeCell(s)) == DecodedCentre(s)
  {
    DecodeCellIsCellOf(s);
  }

  /** `decodeGeohash(geohash)`: refine the longitude and latitude intervals
      five times per character, alternating, and return the midpoints. */
  method DecodeGeohash(geohash: string) returns (latitude: real, longitude: real)
    ensures (latitude, longitude) == DecodedCentre(geohash)
  {
    var isEven := true;
    var cell := WORLD;
    for i := 0 to |geohash|
      invariant isEven == (i % 2 == 0)
      invariant cell == DecodeCell(geohash[..i])
    {
      var cd := IndexOf(BASE32, geohash[i]);
      PatternBits(cd);
      DecodeCellNext(geohash, i);
      FiveParity(i);
      cell, isEven := RefineCharacter(cell, MaskBits(Pattern(cd)), isEven, 5 * i);
      Parity(i);
    }
    latitude := cell.lat.Mid();
    longitude := cell.lon.Mid();
    assert geohash[..|geohash|] == geohash;
    DecodeCentre(geohash);
  }

  /** The five bits the masks of `BITS` pick out of a pattern, in order. */
  function MaskBits(pattern: bv32): (r: seq<bool>)
    ensures |r| == 5
  {
    [pattern & 16 != 0, pattern & 8 != 0, pattern & 4 != 0, pattern & 2 != 0, pattern & 1 != 0]
  }

  lemma MaskBitsAt(pattern: bv32, j: nat)
    requires j < 5
    ensures (pattern & BITS[j] != 0) == MaskBits(pattern)[j]
  {
  }

  /** The masks of `BITS` test a character's five bits, most significant
      first. */
  lemma PatternBits(cd: int)
    requires -1 <= cd < 32
    ensures MaskBits(Pattern(cd)) == DigitBits(if cd < 0 then 31 else cd)
  {
    forall j | 0 <= j < 5
      ensures MaskBits(Pattern(cd))[j] == DigitBits(if cd < 0 then 31 else cd)[j]
    {
      GroupBit(cd, j);
      MaskBitsAt(Pattern(cd), j);
    }
  }

  lemma ParityFive(k: nat)
    ensures ((k + 5) % 2 == 0) == (k % 2 != 0)
  {
  }

  lemma FiveParity(i: nat)
    ensures ((5 * i) % 2 == 0) == (i % 2 == 0)
  {
    DivModOf(2 * (i / 2) + i % 2, 2, i % 2);
    assert 5 * i == 2 * (5 * (i / 2) + 2 * (i % 2)) + i % 2;
    DivModOf(5 * (i / 2) + 2 * (i % 2), 2, i % 2);
  }

  /** The inner loop of `decodeGeohash`: one character's five mask tests,
      each halving the longitude or the latitude interval in turn; k is the
      number of the character's first bit in the hash. */
  method RefineCharacter(start: Cell, tests: seq<bool>, isEven: bool, ghost k: nat)
    returns (cell: Cell, nowEven: bool)
    requires |tests| == 5
    requires isEven == (k % 2 == 0)
    ensures nowEven == !isEven
    ensures cell == RefineBits(start, k, tests, 5)
  {
    cell := start;
    nowEven := isEven;
    for j := 0 to 5
      invariant cell == RefineBits(start, k, tests, j)
      invariant nowEven == ((k + j) % 2 == 0)
    {
      RefineBitsNext(start, k, tests, j);
      if nowEven {
        cell := Cell(cell.lat, Halve(cell.lon, tests[j]));
      } else {
        cell := Cell(Halve(cell.lat, tests[j]), cell.lon);
      }
      nowEven := !nowEven;
      Parity(k + j);
    }
    ParityFive(k);
  }

  /** Appending a bit refines the cell on the axis of its position. */
  lemma DecodeStep(bits: seq<bool>, b: bool)
    ensures CellOf(bits + [b]) == Refine(CellOf(bits), |bits|, b)
  {
    assert (bits + [b])[..|bits|] == bits;
  }
}
