/** `Geohash.internal.kt`: interval refinement, longitude normalisation and
    the closed formulas for the width and height of a geohash cell. A Kotlin
    `Double` is a `real`: every value these functions see in the codec is a
    dyadic rational or an integer, so the arithmetic is exact. */
module GeohashInternal {

  /** `refineInterval(interval, cd, mask)`: keep the upper half of the two-entry
      interval when `cd and mask` is non-zero, otherwise the lower half. */
  method RefineInterval(interval: array<real>, cd: bv32, mask: bv32)
    requires interval.Length == 2
    modifies interval
    ensures cd & mask != 0 ==> interval[0] == (old(interval[0]) + old(interval[1])) / 2.0 && interval[1] == old(interval[1])
    ensures cd & mask == 0 ==> interval[0] == old(interval[0]) && interval[1] == (old(interval[0]) + old(interval[1])) / 2.0
    ensures old(interval[0]) <= old(interval[1]) ==> old(interval[0]) <= interval[0] <= interval[1] <= old(interval[1])
    ensures interval[1] - interval[0] == (old(interval[1]) - old(interval[0])) / 2.0
  {
    if cd & mask != 0 {
      interval[0] := (interval[0] + interval[1]) / 2.0;
    } else {
      interval[1] := (interval[0] + interval[1]) / 2.0;
    }
  }

  /** `to180(d)`: a negative angle is reflected, normalised and reflected back;
      an angle above 180 loses `floor((d + 180) / 360)` full turns (`round` of
      an integral value is that value). */
  function To180(d: real): (r: real)
    ensures -180.0 <= r <= 180.0
    decreases if d < 0.0 then 1 else 0
  {
    if d < 0.0 then -To180(-d)
    else if d > 180.0 then d - ((d + 180.0) / 360.0).Floor as real * 360.0
    else d
  }

  /** The number of full turns `to180` removes from `d`. */
  function Turns(d: real): int
    decreases if d < 0.0 then 1 else 0
  {
    if d < 0.0 then -Turns(-d)
    else if d > 180.0 then ((d + 180.0) / 360.0).Floor
    else 0
  }

  /** `to180(d)` differs from `d` by a whole number of turns. */
  lemma To180WholeTurns(d: real)
    ensures d - To180(d) == Turns(d) as real * 360.0
  {
  }

  /** `to180` forgets whole turns: shifting the angle by `k` turns gives the
      same result, except that the antimeridian may change name between 180
      and -180. */
  lemma To180Periodic(d: real, k: int)
    ensures var r := To180(d - k as real * 360.0);
      r == To180(d) || (r == 180.0 && To180(d) == -180.0) || (r == -180.0 && To180(d) == 180.0)
  {
    var e := d - k as real * 360.0;
    To180WholeTurns(d);
    To180WholeTurns(e);
    var j := Turns(d) - k - Turns(e);
    assert To180(e) - To180(d) == j as real * 360.0;
  }

  /** An angle already in [-180, 180] is returned unchanged. */
  lemma To180Identity(d: real)
    requires -180.0 <= d <= 180.0
    ensures To180(d) == d
  {
  }

  /** `to180` is odd: negating the angle negates the result. */
  lemma To180Odd(d: real)
    requires d > 0.0
    ensures To180(-d) == -To180(d)
  {
  }

  /** Three half turns land on -180, not on 180: for positive input the
      result lies in [-180, 180). */
  lemma To180OfThreeHalfTurns()
    ensures To180(540.0) == -180.0
    ensures To180(-540.0) == 180.0
  {
    assert ((540.0 + 180.0) / 360.0).Floor == 2;
  }

  /** For positive angles above 180 the result is at least -180 and below 180. */
  lemma To180AboveHalfTurn(d: real)
    requires d > 180.0
    ensures -180.0 <= To180(d) < 180.0
  {
  }

  function Pow2Nat(k: nat): (r: nat)
    ensures r >= 1
  {
    if k == 0 then 1 else 2 * Pow2Nat(k - 1)
  }

  /** 2 to an integer power, as Kotlin's `2.0.pow(e)` for integral `e`. */
  function Pow2(e: int): (r: real)
    ensures r > 0.0
  {
    if e >= 0 then Pow2Nat(e) as real else 1.0 / Pow2Nat(-e) as real
  }

  /** Raising the exponent by one doubles the power, for negative exponents too. */
  lemma Pow2Succ(e: int)
    ensures Pow2(e + 1) == 2.0 * Pow2(e)
  {
    if e < -1 {
      var p := Pow2Nat(-e - 1) as real;
      assert Pow2Nat(-e) as real == 2.0 * p;
      assert Pow2(e) == 1.0 / (2.0 * p);
      assert Pow2(e + 1) == 1.0 / p;
    }
  }

  lemma {:induction false} Pow2Add5(e: int)
    ensures Pow2(e + 5) == 32.0 * Pow2(e)
  {
    Pow2Succ(e);
    Pow2Succ(e + 1);
    Pow2Succ(e + 2);
    Pow2Succ(e + 3);
    Pow2Succ(e + 4);
  }

  /** The exponent in `calculateWidthDegrees`: `2.5 n - 1` for even `n`,
      `2.5 n - 0.5` for odd `n`, always an integer; written with `n / 2`
      so that it stays linear. */
  function WidthExponent(n: int): int
  {
    if n % 2 == 0 then 5 * (n / 2) - 1 else 5 * (n / 2) + 2
  }

  /** The exponent in `calculateHeightDegrees`: `2.5 n` for even `n`,
      `2.5 n - 0.5` for odd `n`. */
  function HeightExponent(n: int): int
  {
    if n % 2 == 0 then 5 * (n / 2) else 5 * (n / 2) + 2
  }

  /** The integral exponents are exactly the source's real-valued ones
      (Kotlin's `n % 2 == 0` and Dafny's agree on parity for negative `n`). */
  lemma ExponentsExact(n: int)
    ensures WidthExponent(n) as real == 2.5 * n as real + (if n % 2 == 0 then -1.0 else -0.5)
    ensures HeightExponent(n) as real == 2.5 * n as real + (if n % 2 == 0 then 0.0 else -0.5)
  {
    var h := n / 2;
    assert n == 2 * h + n % 2;
    assert n as real == 2.0 * h as real + (n % 2) as real;
  }

  /** `calculateWidthDegrees(n)`. */
  function CalculateWidthDegrees(n: int): (r: real)
    ensures r > 0.0
  {
    180.0 / Pow2(WidthExponent(n))
  }

  /** `calculateHeightDegrees(n)`. */
  function CalculateHeightDegrees(n: int): (r: real)
    ensures r > 0.0
  {
    180.0 / Pow2(HeightExponent(n))
  }

  /** The documented widths: the whole world, one character, two characters,
      and 13 characters (2^32 parts of 180). */
  lemma WidthValues()
    ensures CalculateWidthDegrees(0) == 360.0
    ensures CalculateWidthDegrees(1) == 45.0
    ensures CalculateWidthDegrees(2) == 11.25
    ensures CalculateWidthDegrees(13) == 180.0 / 4294967296.0
  {
    WidthOfWorld();
    WidthOfSmallLengths();
    WidthOfThirteen();
  }

  lemma WidthOfWorld()
    ensures CalculateWidthDegrees(0) == 360.0
  {
    assert WidthExponent(0) == -1;
    assert Pow2(-1) == 0.5;
  }

  lemma WidthOfSmallLengths()
    ensures CalculateWidthDegrees(1) == 45.0
    ensures CalculateWidthDegrees(2) == 11.25
  {
    assert WidthExponent(1) == 2 && WidthExponent(2) == 4;
    assert Pow2Nat(2) == 4;
    assert Pow2Nat(4) == 16;
  }

  lemma WidthOfThirteen()
    ensures CalculateWidthDegrees(13) == 180.0 / 4294967296.0
  {
    assert WidthExponent(13) == 32;
    Pow2Nat32();
  }

  lemma Pow2Nat32()
    ensures Pow2Nat(32) == 4294967296
  {
    Pow2Nat16();
    Pow2NatAdd(16, 16);
  }

  lemma Pow2Nat16()
    ensures Pow2Nat(16) == 65536
  {
    assert Pow2Nat(4) == 16;
    Pow2NatAdd(4, 4);
    Pow2NatAdd(8, 8);
  }

  lemma {:induction false} Pow2NatAdd(a: nat, b: nat)
    ensures Pow2Nat(a + b) == Pow2Nat(a) * Pow2Nat(b)
  {
    if a > 0 {
      Pow2NatAdd(a - 1, b);
    }
  }

  lemma HeightValues()
    ensures CalculateHeightDegrees(0) == 180.0
    ensures CalculateHeightDegrees(1) == 45.0
    ensures CalculateHeightDegrees(2) == 5.625
  {
    assert Pow2Nat(2) == 4;
    assert Pow2Nat(5) == 32;
  }

  /** Odd lengths give square cells; even lengths cells twice as wide as high. */
  lemma WidthVersusHeight(n: int)
    ensures n % 2 == 1 ==> CalculateHeightDegrees(n) == CalculateWidthDegrees(n)
    ensures n % 2 == 0 ==> CalculateWidthDegrees(n) == 2.0 * CalculateHeightDegrees(n)
  {
    if n % 2 == 0 {
      var p := Pow2(WidthExponent(n));
      Pow2Succ(WidthExponent(n));
      assert HeightExponent(n) == WidthExponent(n) + 1;
      HalfOfDivision(p);
    } else {
      assert HeightExponent(n) == WidthExponent(n);
    }
  }

  lemma HalfOfDivision(p: real)
    requires p > 0.0
    ensures 180.0 / p == 2.0 * (180.0 / (2.0 * p))
  {
  }

  lemma ExponentsShift(n: int)
    ensures WidthExponent(n + 2) == WidthExponent(n) + 5
    ensures HeightExponent(n + 2) == HeightExponent(n) + 5
  {
    assert (n + 2) % 2 == n % 2;
    assert (n + 2) / 2 == n / 2 + 1;
  }

  /** Two more characters divide both dimensions by 32. */
  lemma TwoMoreCharacters(n: int)
    ensures CalculateWidthDegrees(n + 2) == CalculateWidthDegrees(n) / 32.0
    ensures CalculateHeightDegrees(n + 2) == CalculateHeightDegrees(n) / 32.0
  {
    ExponentsShift(n);
    assert CalculateWidthDegrees(n + 2) == CalculateWidthDegrees(n) / 32.0 by {
      var e := WidthExponent(n);
      Pow2Add5(e);
      ThirtySecondPart(Pow2(e));
    }
    assert CalculateHeightDegrees(n + 2) == CalculateHeightDegrees(n) / 32.0 by {
      var e := HeightExponent(n);
      Pow2Add5(e);
      ThirtySecondPart(Pow2(e));
    }
  }

  lemma ThirtySecondPart(p: real)
    requires p > 0.0
    ensures 180.0 / (32.0 * p) == (180.0 / p) / 32.0
  {
  }
}
