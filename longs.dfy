/** Kotlin `Long` values as the codec uses them: 64-bit patterns. A `Long` is
    modelled by its bit pattern read as an unsigned number in [0, 2^64), so
    `FIRST_BIT_FLAGGED` (the negative `Long` -2^63) is 2^63 here. `ushr` is
    division by a power of two, `shl` multiplication modulo 2^64, `and 0x0f` the
    remainder modulo 16, and `or` the bitwise or of two patterns. */
module Longs {
  import opened GeohashInternal

  const TWO_64: nat := 0x1_0000_0000_0000_0000

  /** A 64-bit pattern. */
  type Long = w: int | 0 <= w < 0x1_0000_0000_0000_0000

  /** `FIRST_BIT_FLAGGED`: only the most significant bit set. */
  const FIRST_BIT_FLAGGED: Long := 0x8000_0000_0000_0000

  lemma Pow2Nat64()
    ensures Pow2Nat(64) == TWO_64
    ensures Pow2Nat(63) == FIRST_BIT_FLAGGED
  {
    Pow2Nat32();
    Pow2NatAdd(32, 32);
    assert Pow2Nat(64) == 2 * Pow2Nat(63);
  }

  /** `Int.toLong()`: the two's-complement pattern of a signed value. */
  function LongOf(n: int): (r: Long)
    ensures 0 <= n < TWO_64 ==> r == n
  {
    n % TWO_64
  }

  /** `w ushr k`: Kotlin uses only the low six bits of the distance, and
      zeros enter from the top. */
  function Ushr(w: Long, k: int): (r: Long)
    ensures r <= w
  {
    var p := Pow2Nat(k % 64);
    DivLe(w, p);
    w / p
  }

  lemma DivLe(x: nat, p: nat)
    requires p >= 1
    ensures 0 <= x / p <= x
  {
    var q := x / p;
    assert x == q * p + x % p;
    MulMono(q, -1, p);
    MulMono(1, p, q);
  }

  /** `w shl k`: bits pushed past the top are lost. */
  function Shl(w: Long, k: int): Long
  {
    (w * Pow2Nat(k % 64)) % TWO_64
  }

  /** `w and 0x0f`: the low four bits (`lowerNibble`). */
  function LowerNibble(w: Long): (r: nat)
    ensures r < 16
  {
    w % 16
  }

  /** Bitwise or of two patterns, one binary digit at a time from the bottom. */
  function BitOr(a: nat, b: nat): nat
    decreases a + b
  {
    if a == 0 then b
    else if b == 0 then a
    else 2 * BitOr(a / 2, b / 2) + (if a % 2 == 1 || b % 2 == 1 then 1 else 0)
  }

  /** `a or b` on `Long`. */
  function Or(a: Long, b: Long): Long
  {
    Pow2Nat64();
    BitOrBound(a, b, 64);
    BitOr(a, b)
  }

  /** Or-ing numbers below 2^k stays below 2^k. */
  lemma {:induction false} BitOrBound(a: nat, b: nat, k: nat)
    requires a < Pow2Nat(k) && b < Pow2Nat(k)
    ensures BitOr(a, b) < Pow2Nat(k)
    decreases k
  {
    if a != 0 && b != 0 {
      BitOrBound(a / 2, b / 2, k - 1);
    }
  }

  /** Or-ing a number with only bits from position k up and a number below 2^k
      adds them: the patterns have no bit in common. */
  lemma {:induction false} BitOrDisjoint(a: nat, b: nat, k: nat)
    requires a % Pow2Nat(k) == 0 && b < Pow2Nat(k)
    ensures BitOr(a, b) == a + b
    decreases k
  {
    if a != 0 && b != 0 {
      var p := Pow2Nat(k - 1);
      ModHalf(a, p);
      BitOrDisjoint(a / 2, b / 2, k - 1);
    }
  }

  /** A multiple of 2p is even and half of it is a multiple of p. */
  lemma ModHalf(a: nat, p: nat)
    requires p >= 1 && a % (2 * p) == 0
    ensures a % 2 == 0 && (a / 2) % p == 0
  {
    var q := a / (2 * p);
    assert a == (2 * p) * q;
    assert a == 2 * (p * q);
    DivModOf(p * q, 2, 0);
    DivModOf(q, p, 0);
  }

  /** Multiplying by a non-negative number keeps the order. */
  lemma MulMono(a: int, b: int, p: nat)
    ensures a <= b ==> a * p <= b * p
  {
  }

  lemma MulLe(a: nat, b: nat, p: nat)
    requires a <= b
    ensures a * p <= b * p
  {
    MulMono(a, b, p);
  }

  /** Division and remainder are determined by quotient and remainder. */
  lemma DivModOf(q: nat, p: nat, r: nat)
    requires r < p
    ensures (q * p + r) / p == q && (q * p + r) % p == r
  {
    var x := q * p + r;
    var d := x / p;
    assert x == d * p + x % p;
    MulMono(q + 1, d, p);
    MulMono(d + 1, q, p);
  }

  lemma Distribute(q: int, b: int, s: int, a: int)
    ensures (q * b + s) * a == q * (a * b) + s * a
  {
  }

  /** Dividing by a then by b is dividing by a * b. */
  lemma DivDiv(x: nat, a: nat, b: nat)
    requires a >= 1 && b >= 1
    ensures x / (a * b) == (x / a) / b
  {
    var p := a * b;
    var q := (x / a) / b;
    var r := ((x / a) % b) * a + x % a;
    DivDivSplit(x, a, b);
    DivOfSplit(x, p, q, r);
  }

  lemma DivOfSplit(x: nat, p: nat, q: nat, r: nat)
    requires r < p && x == q * p + r
    ensures x / p == q
  {
    DivModOf(q, p, r);
  }

  /** `x` written in the mixed radix `a`, `b`. */
  lemma DivDivSplit(x: nat, a: nat, b: nat)
    requires a >= 1 && b >= 1
    ensures x == ((x / a) / b) * (a * b) + (((x / a) % b) * a + x % a)
    ensures 0 <= ((x / a) % b) * a + x % a < a * b
  {
    var y := x / a;
    var q := y / b;
    var s := y % b;
    var t := x % a;
    assert y == q * b + s;
    assert x == y * a + t;
    Distribute(q, b, s, a);
    assert x == q * (a * b) + (s * a + t);
    MulLe(s, b - 1, a);
    assert (b - 1) * a == a * b - a;
    MulLe(0, s, a);
  }

  /** Taking a remainder before multiplying does not change the remainder after. */
  lemma ModMulMod(x: nat, c: nat, m: nat)
    requires m >= 1
    ensures ((x % m) * c) % m == (x * c) % m
  {
    var q := x / m;
    var r := x % m;
    var u := (r * c) / m;
    var v := (r * c) % m;
    assert x == q * m + r;
    Distribute(q, m, r, c);
    assert q * (c * m) == (q * c) * m;
    assert r * c == u * m + v;
    assert (q * c) * m + u * m == (q * c + u) * m;
    assert x * c == (q * c + u) * m + v;
    MulLe(0, q, c);
    DivModOf(q * c + u, m, v);
  }

  /** Multiplying powers of two. */
  lemma Pow2Split(a: nat, b: nat)
    ensures Pow2Nat(a) * Pow2Nat(b) == Pow2Nat(a + b)
  {
    Pow2NatAdd(a, b);
  }

  /** The number whose binary digits, most significant first, are `bits`. */
  function Num(bits: seq<bool>): (r: nat)
    ensures r < Pow2Nat(|bits|)
  {
    if bits == [] then 0
    else 2 * Num(bits[..|bits| - 1]) + (if bits[|bits| - 1] then 1 else 0)
  }

  /** Splitting a bit string splits its number: the prefix is shifted past
      the suffix. */
  lemma {:induction false} NumAppend(a: seq<bool>, b: seq<bool>)
    ensures Num(a + b) == Num(a) * Pow2Nat(|b|) + Num(b)
    decreases |b|
  {
    if b == [] {
      assert a + b == a;
    } else {
      var n := |b| - 1;
      var last := if b[n] then 1 else 0;
      assert (a + b)[..|a + b| - 1] == a + b[..n];
      assert Num(a + b) == 2 * Num(a + b[..n]) + last;
      assert Num(b) == 2 * Num(b[..n]) + last;
      NumAppend(a, b[..n]);
      assert Pow2Nat(|b|) == 2 * Pow2Nat(n);
      Twice(Num(a), Pow2Nat(n));
    }
  }

  lemma Twice(x: int, p: int)
    ensures 2 * (x * p) == x * (2 * p)
  {
  }

  /** The word whose top |bits| bits are `bits` and whose other bits are clear. */
  function Pack(bits: seq<bool>): Long
    requires |bits| <= 64
  {
    PackBound(bits);
    Num(bits) * Pow2Nat(64 - |bits|)
  }

  lemma PackBound(bits: seq<bool>)
    requires |bits| <= 64
    ensures Num(bits) * Pow2Nat(64 - |bits|) < TWO_64
  {
    Pow2Nat64();
    Pow2Split(|bits|, 64 - |bits|);
    BelowProduct(Num(bits), Pow2Nat(|bits|), Pow2Nat(64 - |bits|));
  }

  lemma BelowProduct(n: nat, m: nat, p: nat)
    requires n < m
    ensures n * p <= m * p - p
  {
    MulLe(n + 1, m, p);
  }

  /** 2^k is a `Long` for k < 64. */
  lemma Pow2Below64(k: nat)
    requires k < 64
    ensures Pow2Nat(k) < TWO_64
  {
    Pow2Nat64();
    Pow2Split(k, 64 - k);
    assert Pow2Nat(64 - k) == 2 * Pow2Nat(63 - k);
    MulLe(2, Pow2Nat(64 - k), Pow2Nat(k));
  }

  /** The single bit i places below the top: `FIRST_BIT_FLAGGED ushr i`. */
  function Mask(i: nat): Long
    requires i < 64
  {
    Pow2Below64(63 - i);
    Pow2Nat(63 - i)
  }

  /** `Mask(i)` is the top bit shifted right i places. */
  lemma MaskIsShiftedTop(i: nat)
    requires i < 64
    ensures Mask(i) == Ushr(FIRST_BIT_FLAGGED, i)
  {
    assert i % 64 == i;
    var p := Pow2Nat(i);
    assert Ushr(FIRST_BIT_FLAGGED, i) == FIRST_BIT_FLAGGED / p;
    Pow2Nat64();
    Pow2Split(63 - i, i);
    MaskQuotient(Pow2Nat(63 - i), p, FIRST_BIT_FLAGGED);
  }

  lemma MaskQuotient(m: nat, p: nat, top: nat)
    requires p >= 1 && m * p == top
    ensures top / p == m
  {
    ExactDiv(m, p);
  }

  lemma ExactDiv(a: nat, b: nat)
    requires b >= 1
    ensures (a * b) / b == a
  {
    DivModOf(a, b, 0);
  }

  /** Each further shift by one halves the mask. */
  lemma MaskHalves(i: nat)
    requires i < 63
    ensures Ushr(Mask(i), 1) == Mask(i + 1)
  {
    assert Pow2Nat(63 - i) == 2 * Pow2Nat(62 - i);
    DivModOf(Pow2Nat(62 - i), 2, 0);
  }

  /** Distinct positions give distinct masks. */
  lemma MaskInjective(i: nat, j: nat)
    requires i < 64 && j < 64 && Mask(i) == Mask(j)
    ensures i == j
  {
    Pow2Injective(63 - i, 63 - j);
  }

  lemma {:induction false} Pow2Injective(a: nat, b: nat)
    requires Pow2Nat(a) == Pow2Nat(b)
    ensures a == b
    decreases a
  {
    if a > 0 && b > 0 {
      Pow2Injective(a - 1, b - 1);
    } else {
      Pow2Positive(a);
      Pow2Positive(b);
    }
  }

  lemma Pow2Positive(a: nat)
    ensures a > 0 ==> Pow2Nat(a) >= 2
  {
  }

  /** Appending a set bit to the packed prefix is or-ing in the bit just below
      it; appending a clear bit changes nothing. */
  lemma PackStep(bits: seq<bool>, b: bool)
    requires |bits| < 64
    ensures b ==> Pack(bits + [b]) == Or(Pack(bits), Mask(|bits|))
    ensures !b ==> Pack(bits + [b]) == Pack(bits)
  {
    var n := |bits|;
    var p := Pow2Nat(63 - n);
    assert (bits + [b])[..n] == bits;
    assert Pow2Nat(64 - n) == 2 * p;
    var word := Pack(bits);
    var k := Num(bits);
    assert word == k * Pow2Nat(64 - n);
    DoubleFactor(k, p);
    assert word == (2 * k) * p;
    assert Num(bits + [b]) == 2 * k + (if b then 1 else 0);
    assert Pack(bits + [b]) == (2 * k + (if b then 1 else 0)) * p;
    if b {
      DivModOf(Num(bits), 2 * p, 0);
      BitOrDisjoint(word, p, 64 - n);
    }
  }

  lemma DoubleFactor(k: nat, p: nat)
    ensures k * (2 * p) == (2 * k) * p
  {
  }

  /** The pattern after `pos` shifts left by 5 (the renderer's `newHash`). */
  function Shifted(w: Long, pos: nat): Long
  {
    if pos == 0 then w else Shl(Shifted(w, pos - 1), 5)
  }

  /** Shifting left `pos` times by 5 multiplies by 2^(5 pos) modulo 2^64. */
  lemma {:induction false} ShiftedValue(w: Long, pos: nat)
    ensures Shifted(w, pos) == (w * Pow2Nat(5 * pos)) % TWO_64
  {
    if pos == 0 {
      DivModOf(0, TWO_64, w);
    } else {
      ShiftedValue(w, pos - 1);
      var x := w * Pow2Nat(5 * (pos - 1));
      Pow2Nat64();
      assert Pow2Nat(5) == 32;
      ModMulMod(x, 32, TWO_64);
      Pow2Split(5 * (pos - 1), 5);
      assert x * 32 == w * Pow2Nat(5 * pos);
    }
  }

  /** The 5-bit group `pos` counted from the top of the word: bits 63 - 5 pos
      down to 59 - 5 pos. */
  function GroupAt(w: Long, pos: nat): (r: nat)
    requires pos < 12
    ensures r < 32
  {
    (w / Pow2Nat(59 - 5 * pos)) % 32
  }

  /** After `pos` shifts the top five bits are group `pos` of the original. */
  lemma TopOfShifted(w: Long, pos: nat)
    requires pos < 12
    ensures Ushr(Shifted(w, pos), 59) == GroupAt(w, pos)
  {
    var a := Pow2Nat(59 - 5 * pos);
    var b := Pow2Nat(5 * pos);
    var top := Pow2Nat(59);
    ShiftedTop(w, pos);
    UshrTop(Shifted(w, pos));
    TopFactors(pos);
    TopGroup(w, a, b, top);
  }

  lemma ShiftedTop(w: Long, pos: nat)
    ensures Shifted(w, pos) == (w * Pow2Nat(5 * pos)) % (32 * Pow2Nat(59))
  {
    ShiftedValue(w, pos);
    TopSplit();
  }

  lemma UshrTop(s: Long)
    ensures Ushr(s, 59) == s / Pow2Nat(59)
  {
  }

  lemma TopFactors(pos: nat)
    requires pos < 12
    ensures Pow2Nat(59 - 5 * pos) * Pow2Nat(5 * pos) == Pow2Nat(59)
  {
    Pow2Split(59 - 5 * pos, 5 * pos);
  }

  lemma TopSplit()
    ensures TWO_64 == 32 * Pow2Nat(59)
  {
    Pow2Nat64();
    Pow2Split(5, 59);
    assert Pow2Nat(5) == 32;
  }

  /** The arithmetic behind `TopOfShifted`, with the powers abstract. */
  lemma TopGroup(w: nat, a: nat, b: nat, top: nat)
    requires a >= 1 && b >= 1 && a * b == top
    ensures ((w * b) % (32 * top)) / top == (w / a) % 32
  {
    var u := w / a;
    var v := w % a;
    var g := u % 32;
    var u1 := u / 32;
    assert w == u * a + v;
    assert u == 32 * u1 + g;
    Regroup(u, a, v, b, top, u1, g);
    MulLe(v, a - 1, b);
    MulLe(g, 31, top);
    assert (a - 1) * b == top - b;
    DivModOf(u1, 32 * top, g * top + v * b);
    DivModOf(g, top, v * b);
  }

  /** `(u a + v) b` split at the multiples of `32 a b`. */
  lemma Regroup(u: nat, a: nat, v: nat, b: nat, top: nat, u1: nat, g: nat)
    requires a * b == top && u == 32 * u1 + g
    ensures (u * a + v) * b == u1 * (32 * top) + (g * top + v * b)
  {
    calc {
      (u * a + v) * b;
      u * (a * b) + v * b;
      (32 * u1 + g) * top + v * b;
      u1 * (32 * top) + (g * top + v * b);
    }
  }
}
