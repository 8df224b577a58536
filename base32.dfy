/** `support/Base32.kt`: a signed base-32 codec for integers over the geohash
    alphabet, with a character-to-index lookup. Kotlin `Long` values are
    unbounded `int`s here; the preconditions keep every intermediate value
    inside the `Long` range, so no wrap-around occurs. */
module Base32 {
  import opened Wrappers

  /** `charactersBase32`: the digits 0-9 and the lower-case letters without a, i, l, o. */
  const CHARACTERS: string := "0123456789bcdefghjkmnpqrstuvwxyz"

  /** The largest `Long`; `Long.MIN_VALUE` is excluded from `EncodeBase32`. */
  const LONG_MAX: int := 0x7fff_ffff_ffff_ffff

  /** `Int.MAX_VALUE` and `Int.MIN_VALUE`: the range of the `length` argument. */
  const INT_MAX: int := 0x7fff_ffff
  const INT_MIN: int := -0x8000_0000

  function Pow32(k: nat): (r: nat)
    ensures r >= 1
  {
    if k == 0 then 1 else 32 * Pow32(k - 1)
  }

  /** The alphabet is sorted by character code. */
  lemma {:induction false} CharactersAscending(i: nat, j: nat)
    requires i < j < |CHARACTERS|
    ensures CHARACTERS[i] < CHARACTERS[j]
    decreases j - i
  {
    if j > i + 1 {
      CharactersAscending(i, j - 1);
    }
  }

  /** The 32 characters are distinct, so an index is determined by its character. */
  lemma CharactersDistinct(i: nat, j: nat)
    requires i < |CHARACTERS| && j < |CHARACTERS| && CHARACTERS[i] == CHARACTERS[j]
    ensures i == j
  {
    if i < j {
      CharactersAscending(i, j);
    } else if j < i {
      CharactersAscending(j, i);
    }
  }

  /** `characterIndexesBase32`: each character mapped to its position, as
      the source builds it with `mapIndexed`. */
  const CHARACTER_INDEXES: map<char, nat> := map[
      '0' := 0, '1' := 1, '2' := 2, '3' := 3, '4' := 4, '5' := 5, '6' := 6, '7' := 7,
      '8' := 8, '9' := 9, 'b' := 10, 'c' := 11, 'd' := 12, 'e' := 13, 'f' := 14, 'g' := 15,
      'h' := 16, 'j' := 17, 'k' := 18, 'm' := 19, 'n' := 20, 'p' := 21, 'q' := 22, 'r' := 23,
      's' := 24, 't' := 25, 'u' := 26, 'v' := 27, 'w' := 28, 'x' := 29, 'y' := 30, 'z' := 31
    ]

  /** The map has the alphabet as its keys and sends each character to its position. */
  lemma CharacterIndexesInverse()
    ensures forall c :: c in CHARACTER_INDEXES <==> c in CHARACTERS
    ensures forall i | 0 <= i < |CHARACTERS| :: CHARACTER_INDEXES[CHARACTERS[i]] == i
  {
    CharacterIndexKeys();
    forall i | 0 <= i < |CHARACTERS|
      ensures CHARACTER_INDEXES[CHARACTERS[i]] == i
    {
      CharacterIndexValue(i);
    }
  }

  lemma CharacterIndexKeys()
    ensures forall c :: c in CHARACTER_INDEXES <==> c in CHARACTERS
  {
  }

  lemma CharacterIndexValue(i: nat)
    requires i < |CHARACTERS|
    ensures CHARACTERS[i] in CHARACTER_INDEXES && CHARACTER_INDEXES[CHARACTERS[i]] == i
  {
    if i < 16 {
      CharacterIndexLow(i);
    } else {
      CharacterIndexHigh(i);
    }
  }

  lemma CharacterIndexLow(i: nat)
    requires i < 16
    ensures CHARACTERS[i] in CHARACTER_INDEXES && CHARACTER_INDEXES[CHARACTERS[i]] == i
  {
    if i < 2 {
    } else if i < 4 {
    } else if i < 6 {
    } else if i < 8 {
    } else if i < 10 {
    } else if i < 12 {
    } else if i < 14 {
    } else {
    }
  }

  lemma CharacterIndexHigh(i: nat)
    requires 16 <= i < |CHARACTERS|
    ensures CHARACTERS[i] in CHARACTER_INDEXES && CHARACTER_INDEXES[CHARACTERS[i]] == i
  {
    if i < 20 {
    } else if i < 24 {
    } else if i < 28 {
    } else {
    }
  }

  /** `charIndexOfBase32`: the index of `ch`, or the `requireNotNull` failure
      for a character outside the alphabet. */
  function CharIndexOfBase32(ch: char): (r: Result<nat>)
    ensures r.Ok? ==> r.value < 32
  {
    if ch in CHARACTER_INDEXES then Ok(CHARACTER_INDEXES[ch]) else Fail("not a base32 character")
  }

  /** A successful lookup gives the position of the character in the alphabet. */
  lemma CharIndexSound(ch: char)
    requires CharIndexOfBase32(ch).Ok?
    ensures CHARACTERS[CharIndexOfBase32(ch).value] == ch
  {
    CharacterIndexesInverse();
  }

  /** The lookup succeeds exactly on the alphabet. */
  lemma CharIndexDefined(ch: char)
    ensures CharIndexOfBase32(ch).Ok? <==> ch in CHARACTERS
  {
    CharacterIndexesInverse();
  }

  /** Looking up the i-th character gives i back. */
  lemma CharIndexOfCharacter(i: nat)
    requires i < |CHARACTERS|
    ensures CharIndexOfBase32(CHARACTERS[i]) == Ok(i)
  {
    CharacterIndexValue(i);
  }

  /** '?' is not a base-32 character. */
  lemma RejectsQuestionMark()
    ensures CharIndexOfBase32('?').Fail?
  {
  }

  /** The base-32 digits of `n`, most significant first, with no leading zero. */
  function Digits(n: nat): (r: string)
    ensures 1 <= |r|
    ensures forall i | 0 <= i < |r| :: CharIndexOfBase32(r[i]).Ok?
    decreases n
  {
    if n < 32 then [CHARACTERS[n]] else Digits(n / 32) + [CHARACTERS[n % 32]]
  }

  /** The digits start with '0' only for 0 itself, which is "0". */
  lemma {:induction false} DigitsNoLeadingZero(n: nat)
    ensures Digits(n)[0] == '0' <==> n == 0
    ensures n == 0 ==> Digits(n) == "0"
    decreases n
  {
    if n >= 32 {
      DigitsNoLeadingZero(n / 32);
    } else if n > 0 {
      CharactersAscending(0, n);
    }
  }

  /** The number of digits of `n` is at most `k` exactly when `n < 32^k`. */
  lemma {:induction false} DigitsFit(n: nat, k: nat)
    requires 1 <= k
    ensures |Digits(n)| <= k <==> n < Pow32(k)
    decreases n
  {
    if n >= 32 {
      if k == 1 {
        assert |Digits(n)| >= 2;
      } else {
        DigitsFit(n / 32, k - 1);
      }
    }
  }

  lemma MulNat(a: nat, b: nat)
    ensures a * b >= 0
  {
  }

  /** The number a digit string denotes (positional, most significant first),
      or `None` if some character is not a base-32 digit. */
  function Value(s: string): Option<nat>
  {
    if s == [] then Some(0)
    else
      var j := CharIndexOfBase32(s[0]);
      var rest := Value(s[1..]);
      if j.Ok? && rest.Some? then
        MulNat(j.value, Pow32(|s| - 1));
        Some(j.value * Pow32(|s| - 1) + rest.value)
      else None
  }

  /** A string has a value exactly when every character is a base-32 digit. */
  lemma {:induction false} ValueDefined(s: string)
    ensures Value(s).Some? <==> forall i | 0 <= i < |s| :: CharIndexOfBase32(s[i]).Ok?
  {
    if s != [] {
      ValueDefined(s[1..]);
      assert forall i | 1 <= i < |s| :: s[i] == s[1..][i - 1];
    }
  }

  /** The first digit is weighted by 32 to the number of digits after it. */
  lemma ValueCons(s: string)
    requires s != [] && Value(s).Some?
    ensures CharIndexOfBase32(s[0]).Ok? && Value(s[1..]).Some?
    ensures Value(s).value == CharIndexOfBase32(s[0]).value * Pow32(|s| - 1) + Value(s[1..]).value
  {
  }

  lemma ValueConsOk(s: string)
    requires s != [] && CharIndexOfBase32(s[0]).Ok? && Value(s[1..]).Some?
    ensures Value(s).Some?
    ensures Value(s).value == CharIndexOfBase32(s[0]).value * Pow32(|s| - 1) + Value(s[1..]).value
  {
  }

  lemma MulComm(a: int, b: int)
    ensures a * b == b * a
  {
  }

  lemma Mul32(j: int, p: int)
    ensures j * (32 * p) == (j * p) * 32
  {
  }

  /** Appending a digit multiplies by 32 and adds the digit. */
  lemma {:induction false} ValueSnoc(s: string, c: char)
    requires Value(s).Some? && CharIndexOfBase32(c).Ok?
    ensures Value(s + [c]).Some?
    ensures Value(s + [c]).value == Value(s).value * 32 + CharIndexOfBase32(c).value
  {
    var t := s + [c];
    if s != [] {
      assert t[0] == s[0];
      assert t[1..] == s[1..] + [c];
      ValueSnoc(s[1..], c);
      ValueCons(s);
      ValueCons(t);
      var j := CharIndexOfBase32(s[0]).value;
      var p := Pow32(|s| - 1);
      assert Pow32(|t| - 1) == 32 * p;
      Mul32(j, p);
    } else {
      assert t == [c] && t[1..] == [];
    }
  }

  lemma DigitOfSmall(n: nat)
    requires n < 32
    ensures Value(Digits(n)) == Some(n)
  {
    CharIndexOfCharacter(n);
    var s := Digits(n);
    assert s == [CHARACTERS[n]];
    assert s[1..] == [];
  }

  lemma DivMod32(n: nat)
    ensures n == (n / 32) * 32 + n % 32
  {
  }

  lemma DigitsSnoc(n: nat)
    requires n >= 32
    ensures Digits(n) == Digits(n / 32) + [CHARACTERS[n % 32]]
  {
  }

  lemma ValueAppendDigit(n: nat, c: char, d: nat)
    requires n >= 32 && Value(Digits(n / 32)) == Some(n / 32)
    requires d == n % 32 && CharIndexOfBase32(c) == Ok(d)
    ensures Value(Digits(n / 32) + [c]) == Some(n)
  {
    ValueSnoc(Digits(n / 32), c);
    DivMod32(n);
  }

  /** Reading the digits of `n` gives `n` back. */
  lemma {:induction false} ValueOfDigits(n: nat)
    ensures Value(Digits(n)) == Some(n)
    decreases n
  {
    if n < 32 {
      DigitOfSmall(n);
    } else {
      ValueOfDigits(n / 32);
      DigitsSnoc(n);
      CharIndexOfCharacter(n % 32);
      ValueAppendDigit(n, CHARACTERS[n % 32], n % 32);
    }
  }

  function Repeat(c: char, k: nat): (r: string)
    ensures |r| == k && forall i | 0 <= i < k :: r[i] == c
  {
    seq(k, _ => c)
  }

  /** One leading '0' does not change the value. */
  lemma ValueZeroCons(u: string)
    ensures Value(['0'] + u) == Value(u)
  {
    var t := ['0'] + u;
    assert t[0] == CHARACTERS[0] && t[1..] == u;
    CharIndexOfCharacter(0);
  }

  /** Leading '0' characters do not change the value. */
  lemma {:induction false} ValueLeadingZeros(k: nat, s: string)
    ensures Value(Repeat('0', k) + s) == Value(s)
  {
    if k == 0 {
      assert Repeat('0', k) + s == s;
    } else {
      var u := Repeat('0', k - 1) + s;
      assert Repeat('0', k) + s == ['0'] + u;
      ValueLeadingZeros(k - 1, s);
      ValueZeroCons(u);
    }
  }

  /** `padStart`: `s` preceded by enough `padChar` to reach `length`
      characters; a negative length throws. */
  function PadStart(s: string, length: int, padChar: char): (r: Result<string>)
    ensures r.Ok? <==> length >= 0
    ensures r.Ok? ==> |r.value| == if |s| >= length then |s| else length
    ensures r.Ok? ==> r.value == Repeat(padChar, |r.value| - |s|) + s
  {
    if length < 0 then Fail("Desired length is less than zero.")
    else if |s| >= length then Ok(s)
    else Ok(Repeat(padChar, length - |s|) + s)
  }

  function Reversed(s: string): (r: string)
    ensures |r| == |s|
  {
    if s == [] then [] else Reversed(s[1..]) + [s[0]]
  }

  /** Kotlin's `Int` addition `n + 1`: from `Int.MAX_VALUE` it wraps round to
      `Int.MIN_VALUE`. */
  function IntSucc(n: int): (r: int)
    requires INT_MIN <= n <= INT_MAX
    ensures INT_MIN <= r <= INT_MAX
  {
    if n == INT_MAX then INT_MIN else n + 1
  }

  /** What `encodeBase32(input, length)` returns: the digits of |input|, a
      leading '-' for a negative input, and '0' padding up to `length`
      (`length + 1` with the sign, in `Int` arithmetic, the padding going in
      front of the sign). */
  function Encoded(input: int, length: int): Result<string>
    requires INT_MIN <= length <= INT_MAX
  {
    if input < 0 then PadStart("-" + Digits(-input), IntSucc(length), '0')
    else PadStart(Digits(input), length, '0')
  }

  /** At `length == Int.MAX_VALUE` the padded length of a negative input
      wraps to `Int.MIN_VALUE` and `padStart` throws, while a non-negative
      input is padded to `Int.MAX_VALUE` characters. */
  lemma EncodeWrapsAtIntMax(input: int)
    ensures Encoded(input, INT_MAX).Fail? <==> input < 0
  {
  }

  /** `encodeBase32(input, length)`: digits are produced least significant
      first into a builder, which is then reversed and padded. */
  method EncodeBase32(input: int, length: int) returns (r: Result<string>)
    requires -LONG_MAX <= input <= LONG_MAX && INT_MIN <= length <= INT_MAX
    ensures r == Encoded(input, length)
  {
    var num := input;
    var isNegative := num < 0;
    if isNegative {
      num := -num;
    }
    ghost var magnitude: nat := num;
    var builder: string := [];
    while num >= 32
      invariant 0 <= num
      invariant Digits(magnitude) == Digits(num) + Reversed(builder)
    {
      DigitsStep(magnitude, num, builder);
      builder := builder + [CHARACTERS[num % 32]];
      num := num / 32;
    }
    DigitsLast(magnitude, num, builder);
    builder := builder + [CHARACTERS[num]];
    var result := Reversed(builder);
    assert result == Digits(if input < 0 then -input else input);
    if isNegative {
      r := PadStart("-" + result, IntSucc(length), '0');
    } else {
      r := PadStart(result, length, '0');
    }
  }

  /** One iteration of the digit loop keeps the digits still to be produced,
      followed by the reversed builder, equal to all the digits. */
  lemma DigitsStep(m: nat, num: nat, builder: string)
    requires num >= 32 && Digits(m) == Digits(num) + Reversed(builder)
    ensures Digits(m) == Digits(num / 32) + Reversed(builder + [CHARACTERS[num % 32]])
  {
    var c := CHARACTERS[num % 32];
    var prefix := Digits(num / 32);
    var tail := Reversed(builder);
    DigitsSnoc(num);
    ReversedSnoc(builder, c);
    SeqAssoc(prefix, [c], tail);
  }

  lemma SeqAssoc(a: string, b: string, c: string)
    ensures (a + b) + c == a + (b + c)
  {
  }

  lemma DigitsLast(m: nat, num: nat, builder: string)
    requires num < 32 && Digits(m) == Digits(num) + Reversed(builder)
    ensures Reversed(builder + [CHARACTERS[num]]) == Digits(m)
  {
    ReversedSnoc(builder, CHARACTERS[num]);
  }

  lemma {:induction false} ReversedSnoc(s: string, c: char)
    ensures Reversed(s + [c]) == [c] + Reversed(s)
  {
    if s != [] {
      assert (s + [c])[1..] == s[1..] + [c];
      ReversedSnoc(s[1..], c);
    }
  }

  /** `encodeBase32(i)`: the same with the default length 12. */
  method EncodeBase32Default(i: int) returns (r: Result<string>)
    requires -LONG_MAX <= i <= LONG_MAX
    ensures r == Encoded(i, 12)
  {
    r := EncodeBase32(i, 12);
  }

  /** What `decodeBase32(hash)` returns: a leading '-' negates the value of the rest. */
  function Decoded(hash: string): Option<int>
  {
    if |hash| > 0 && hash[0] == '-' then
      match Value(hash[1..])
      case Some(v) => Some(-(v as int))
      case None => None
    else
      match Value(hash)
      case Some(v) => Some(v)
      case None => None
  }

  /** The number of digit positions `decodeBase32` reads. */
  function DigitCount(hash: string): nat
  {
    if |hash| > 0 && hash[0] == '-' then |hash| - 1 else |hash|
  }

  /** A string holding a character outside the alphabet has no value. */
  lemma InvalidDigit(s: string, k: nat)
    requires k < |s| && CharIndexOfBase32(s[k]).Fail?
    ensures Value(s) == None
  {
    ValueDefined(s);
  }

  /** Reading one more digit from the right adds it, weighted by 32 to the
      number of digits already read. */
  lemma DecodeStep(hash: string, i: nat, result: int, base: nat)
    requires i < |hash| && Value(hash[i + 1..]).Some? && Value(hash[i + 1..]).value == result
    requires CharIndexOfBase32(hash[i]).Ok? && base == Pow32(|hash| - 1 - i)
    ensures Value(hash[i..]).Some?
    ensures Value(hash[i..]).value == result + base * CharIndexOfBase32(hash[i]).value
    ensures base * 32 == Pow32(|hash| - i)
  {
    var s := hash[i..];
    assert s[0] == hash[i] && s[1..] == hash[i + 1..] && |s| - 1 == |hash| - 1 - i;
    ValueConsOk(s);
    MulComm(CharIndexOfBase32(hash[i]).value, base);
  }

  /** `decodeBase32(hash)`: digits are read from the right, each weighted by
      the running power of 32. At most 12 digits keep `base` and `result`
      below 2^60, inside the `Long` range. */
  method DecodeBase32(hash: string) returns (r: Result<int>)
    requires DigitCount(hash) <= 12
    ensures r.Ok? <==> Decoded(hash).Some?
    ensures r.Ok? ==> r.value == Decoded(hash).value
  {
    var isNegative := |hash| > 0 && hash[0] == '-';
    var startIndex := if isNegative then 1 else 0;
    var base: nat := 1;
    var result: int := 0;
    var i := |hash| - 1;
    while i >= startIndex
      invariant startIndex - 1 <= i <= |hash| - 1
      invariant base == Pow32(|hash| - 1 - i)
      invariant Value(hash[i + 1..]).Some? && Value(hash[i + 1..]).value == result
    {
      var j := CharIndexOfBase32(hash[i]);
      if !j.Ok? {
        assert hash[startIndex..][i - startIndex] == hash[i];
        InvalidDigit(hash[startIndex..], i - startIndex);
        return Fail(j.reason);
      }
      var digit := j.value;
      DecodeStep(hash, i, result, base);
      result := result + base * digit;
      base := base * 32;
      i := i - 1;
    }
    assert hash[startIndex..] == hash[i + 1..];
    if isNegative {
      result := result * -1;
    }
    return Ok(result);
  }

  /** For n >= 0 the encoding is the digits of n, never truncated, preceded
      by '0' padding up to `length`. */
  lemma EncodedNonNegative(n: nat, length: nat)
    requires length <= INT_MAX
    ensures Encoded(n, length).Ok?
    ensures Encoded(n, length).value == Repeat('0', |Encoded(n, length).value| - |Digits(n)|) + Digits(n)
    ensures |Encoded(n, length).value| == if |Digits(n)| >= length then |Digits(n)| else length
  {
  }

  /** Decoding an encoding of a non-negative number gives it back, as long as
      the encoding has at most 12 digits. */
  lemma EncodeDecodeRoundTrip(n: nat, length: nat)
    requires n < Pow32(12) && length <= 12
    ensures DigitCount(Encoded(n, length).value) <= 12
    ensures Decoded(Encoded(n, length).value) == Some(n)
  {
    DigitsFit(n, 12);
    var s := Encoded(n, length).value;
    var pad := |s| - |Digits(n)|;
    ValueLeadingZeros(pad, Digits(n));
    ValueOfDigits(n);
  }

  /** A leading '-' negates whatever the rest decodes to. */
  lemma MinusNegates(s: string)
    requires s == [] || s[0] != '-'
    ensures Decoded("-" + s).Some? <==> Decoded(s).Some?
    ensures Decoded("-" + s).Some? ==> Decoded("-" + s).value == -Decoded(s).value
  {
    assert ("-" + s)[1..] == s;
  }

  /** Leading zeros decode to the same value: "0000000" and "0" are both 0. */
  lemma ZerosDecodeToZero()
    ensures Decoded("0000000") == Some(0) && Decoded("0") == Some(0)
  {
    ValueLeadingZeros(6, "0");
    assert Repeat('0', 6) + "0" == "0000000";
    ValueOfDigits(0);
  }

  /** For a negative input the padding goes in front of the sign:
      `encodeBase32(-123, 4)` is "00-3v". */
  lemma NegativePaddingBeforeSign()
    ensures Encoded(-123, 4) == Ok("00-3v")
  {
    Digits123();
    assert "-" + Digits(123) == "-3v";
    assert Repeat('0', 2) + "-3v" == "00-3v";
  }

  /** Such an encoding does not decode: '-' is not at the front, so it is read
      as a digit and rejected. */
  lemma NegativePaddingBreaksRoundTrip()
    ensures Encoded(-123, 4).Ok? && Decoded(Encoded(-123, 4).value) == None
  {
    NegativePaddingBeforeSign();
    InnerSignRejected();
  }

  lemma InnerSignRejected()
    ensures Decoded("00-3v") == None
  {
    CharIndexDefined('-');
    InvalidDigit("00-3v", 2);
  }

  /** The encoding with the padding placed after the sign: '-' then the
      digits of |input| padded to `length`. */
  function EncodedSignFirst(input: int, length: int): Result<string>
  {
    if input < 0 then
      match PadStart(Digits(-input), length, '0')
      case Ok(s) => Ok("-" + s)
      case Fail(e) => Fail(e)
    else PadStart(Digits(input), length, '0')
  }

  function Abs(n: int): nat
  {
    if n < 0 then -n else n
  }

  /** With the sign first, every number of at most 12 digits round-trips,
      negative ones included. */
  lemma SignFirstRoundTrip(n: int, length: nat)
    requires Abs(n) < Pow32(12) && length <= 12
    ensures EncodedSignFirst(n, length).Ok?
    ensures DigitCount(EncodedSignFirst(n, length).value) <= 12
    ensures Decoded(EncodedSignFirst(n, length).value) == Some(n)
  {
    var m := Abs(n);
    EncodeDecodeRoundTrip(m, length);
    var s := PadStart(Digits(m), length, '0').value;
    if n < 0 {
      assert s == Encoded(m, length).value;
      MinusNegates(s);
      assert s[0] != '-' by {
        assert s[0] == '0' || s[0] in Digits(m);
      }
    }
  }

  /** The digits of 32 * q + d are those of q followed by digit d. */
  lemma DigitsPush(q: nat, d: nat)
    requires 1 <= q && d < 32
    ensures Digits(32 * q + d) == Digits(q) + [CHARACTERS[d]]
  {
    var n := 32 * q + d;
    DivPush(q, d);
    DigitsSnoc(n);
  }

  lemma DivPush(q: nat, d: nat)
    requires d < 32
    ensures (32 * q + d) / 32 == q && (32 * q + d) % 32 == d
  {
  }

  lemma Digits123()
    ensures Digits(123) == "3v"
  {
    DigitsPush(3, 27);
    assert Digits(3) == "3";
  }

  lemma Digits1205()
    ensures Digits(1205) == "15p"
  {
    assert Digits(1) == "1";
    DigitsPush(1, 5);
    assert Digits(37) == "15";
    DigitsPush(37, 21);
  }

  lemma Digits1234567()
    ensures Digits(1234567) == "15pn7"
  {
    Digits1205();
    DigitsPush(1205, 20);
    assert Digits(38580) == "15pn";
    DigitsPush(38580, 7);
  }

  /** The encoding vectors of the unit tests. */
  lemma EncodeVectors()
    ensures Encoded(1234567, 5) == Ok("15pn7")
    ensures Encoded(0, 1) == Ok("0")
    ensures Encoded(-123, 2) == Ok("-3v")
    ensures Encoded(123, 12) == Ok("00000000003v")
  {
    Digits1234567();
    Digits123();
    assert Digits(0) == "0";
    assert "-" + Digits(123) == "-3v";
    assert Repeat('0', 10) + "3v" == "00000000003v";
  }

  /** The decoding vectors of the unit tests. */
  lemma DecodeVectors()
    ensures Decoded("15pn7") == Some(1234567)
    ensures Decoded("-3v") == Some(-123)
  {
    Digits1234567();
    Digits123();
    ValueOfDigits(1234567);
    ValueOfDigits(123);
    MinusNegates("3v");
  }
}
