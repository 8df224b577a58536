/** The two result types of the bounding-box cover: `CoverageLongs` (hashes
    as `Long` words, with a count and a ratio) and `Coverage` (hashes as
    strings), the conversion between them, and the insertion-ordered set that
    both are built from. */
module Coverages {
  import opened Wrappers
  import opened Longs
  import opened GeohashCodec

  /** A `Double` ratio of areas: a real number, or the positive infinity that
      dividing a positive area by a zero area gives. */
  datatype Ratio = Finite(value: real) | Infinite

  /** `a / b` on doubles for a positive numerator. */
  function RatioOf(a: real, b: real): (r: Ratio)
    requires a > 0.0
    ensures r.Infinite? <==> b == 0.0
    ensures r.Finite? ==> r.value * b == a
  {
    if b == 0.0 then Infinite else Finite(a / b)
  }

  predicate NoDuplicates<T(==)>(s: seq<T>)
  {
    forall i, j | 0 <= i < j < |s| :: s[i] != s[j]
  }

  /** `MutableSet.add` on Kotlin's insertion-ordered set, its elements listed
      in iteration order. */
  function AddOne<T(==)>(s: seq<T>, x: T): seq<T>
  {
    if x in s then s else s + [x]
  }

  /** Adding the elements of `xs` one after the other. */
  function AddAll<T(==)>(s: seq<T>, xs: seq<T>): seq<T>
  {
    if xs == [] then s else AddOne(AddAll(s, xs[..|xs| - 1]), xs[|xs| - 1])
  }

  /** The set holds what it held and what was added, nothing else; it never
      holds an element twice; it keeps its first elements in front; it grows by
      at most the number of additions. */
  lemma {:induction false} AddAllFacts<T>(s: seq<T>, xs: seq<T>)
    ensures forall x :: x in AddAll(s, xs) <==> x in s || x in xs
    ensures NoDuplicates(s) ==> NoDuplicates(AddAll(s, xs))
    ensures |s| <= |AddAll(s, xs)| <= |s| + |xs| && AddAll(s, xs)[..|s|] == s
    decreases |xs|
  {
    if xs != [] {
      var init := xs[..|xs| - 1];
      var last := xs[|xs| - 1];
      AddAllFacts(s, init);
      assert xs == init + [last];
      var a := AddAll(s, init);
      if last !in a {
        assert (a + [last])[..|s|] == a[..|s|];
      }
    }
  }

  /** Adding elements that are all different to an empty set lists them as
      they are. */
  lemma {:induction false} AddAllDistinct<T>(xs: seq<T>)
    requires NoDuplicates(xs)
    ensures AddAll([], xs) == xs
    decreases |xs|
  {
    if xs != [] {
      var init := xs[..|xs| - 1];
      AddAllDistinct(init);
      assert xs[|xs| - 1] !in init;
    }
  }

  /** Adding `a` and then `b` is adding `a + b`. */
  lemma {:induction false} AddAllConcat<T>(s: seq<T>, a: seq<T>, b: seq<T>)
    ensures AddAll(s, a + b) == AddAll(AddAll(s, a), b)
    decreases |b|
  {
    if b == [] {
      assert a + b == a;
    } else {
      var init := b[..|b| - 1];
      AddAllConcat(s, a, init);
      assert (a + b)[..|a + b| - 1] == a + init;
    }
  }

  /** `CoverageLongs(hashes, count, ratio)`: `count` is a field of its own,
      never checked against the array. */
  datatype CoverageLongs = CoverageLongs(hashes: seq<Long>, count: int, ratio: Ratio)
  {
    /** `hashLength`: 0 when `count` is 0, otherwise the low four bits of the
        first word; reading the first word of an empty array throws. */
    function HashLength(): Result<int>
    {
      if count == 0 then Ok(0)
      else if hashes == [] then Fail("Index 0 out of bounds for length 0")
      else Ok(LowerNibble(hashes[0]))
    }
  }

  /** `hashLength` is 0 for a count of 0, otherwise the first word's length
      field, a number below 16; it fails only for a nonzero count over an empty
      array. */
  lemma HashLengthOfLongs(c: CoverageLongs)
    ensures c.HashLength().Ok? <==> c.count == 0 || |c.hashes| > 0
    ensures c.count == 0 ==> c.HashLength() == Ok(0)
    ensures c.count != 0 && |c.hashes| > 0 ==> c.HashLength() == Ok(LowerNibble(c.hashes[0]))
    ensures c.HashLength().Ok? ==> 0 <= c.HashLength().value < 16
  {
  }

  /** The overridden `equals`: equal array contents, counts and ratios. */
  predicate Equals(a: CoverageLongs, b: CoverageLongs)
  {
    a.hashes == b.hashes && a.count == b.count && a.ratio == b.ratio
  }

  /** So `equals` is structural equality of the three fields, which makes it
      an equivalence, unlike the array identity the default would compare. */
  lemma EqualsIsEquality(a: CoverageLongs, b: CoverageLongs)
    ensures Equals(a, b) <==> a == b
  {
  }

  /** `Coverage(hashes, ratio)`: the set of string hashes, listed in its
      iteration order. */
  datatype Coverage = Coverage(hashes: seq<string>, ratio: Ratio)
  {
    /** `hashLength`: 0 for no hashes, otherwise the length of the first one
        the iterator returns. */
    function HashLength(): nat
    {
      if hashes == [] then 0 else |hashes[0]|
    }
  }

  /** When every hash has `k` characters, `hashLength` is `k`; it is 0 only
      for the empty set or a set whose first hash is empty. */
  lemma HashLengthUniform(c: Coverage, k: nat)
    requires c.hashes != [] && forall i | 0 <= i < |c.hashes| :: |c.hashes[i]| == k
    ensures c.HashLength() == k
  {
    assert |c.hashes[0]| == k;
  }

  /** `hashes.map { fromLongToString(it) }`: the strings in array order, or
      the failure of the first word that does not convert. */
  function StringsOf(longs: seq<Long>): (r: Result<seq<string>>)
    ensures r.Ok? <==> forall i | 0 <= i < |longs| :: LongToString(longs[i]).Ok?
    ensures r.Ok? ==> |r.value| == |longs| && forall i | 0 <= i < |longs| :: LongToString(longs[i]) == Ok(r.value[i])
  {
    if longs == [] then Ok([])
    else
      var init := StringsOf(longs[..|longs| - 1]);
      var last := LongToString(longs[|longs| - 1]);
      assert forall i | 0 <= i < |longs| - 1 :: longs[..|longs| - 1][i] == longs[i];
      if init.Fail? then Fail(init.reason)
      else if last.Fail? then Fail(last.reason)
      else Ok(init.value + [last.value])
  }

  /** The secondary constructor `Coverage(coverage: CoverageLongs)`: convert
      every word, collect the strings into a set, keep the ratio. */
  function FromCoverageLongs(c: CoverageLongs): Result<Coverage>
  {
    var strings := StringsOf(c.hashes);
    if strings.Fail? then Fail(strings.reason) else Ok(Coverage(AddAll([], strings.value), c.ratio))
  }

  /** The conversion succeeds exactly when every word carries a length from 1
      to 12; it keeps the ratio; its set holds exactly the strings of the
      words, each once, so it has at most as many members as there are words. */
  lemma ConvertedCoverage(c: CoverageLongs)
    ensures FromCoverageLongs(c).Ok? <==> forall i | 0 <= i < |c.hashes| :: 1 <= LowerNibble(c.hashes[i]) <= MAX_HASH_LENGTH
    ensures FromCoverageLongs(c).Ok? ==>
      var h := FromCoverageLongs(c).value;
      h.ratio == c.ratio && NoDuplicates(h.hashes) && |h.hashes| <= |c.hashes|
      && forall s :: s in h.hashes <==> exists i | 0 <= i < |c.hashes| :: LongToString(c.hashes[i]) == Ok(s)
  {
    var strings := StringsOf(c.hashes);
    if strings.Ok? {
      AddAllFacts([], strings.value);
      forall s
        ensures s in strings.value <==> exists i | 0 <= i < |c.hashes| :: LongToString(c.hashes[i]) == Ok(s)
      {
        if s in strings.value {
          var i :| 0 <= i < |strings.value| && strings.value[i] == s;
          assert LongToString(c.hashes[i]) == Ok(s);
        }
      }
    }
  }

  /** A converted coverage has the `hashLength` of the words it came from. */
  lemma ConvertedHashLength(c: CoverageLongs)
    requires c.count != 0 && c.hashes != [] && FromCoverageLongs(c).Ok?
    ensures FromCoverageLongs(c).value.HashLength() == c.HashLength().value
  {
    var strings := StringsOf(c.hashes).value;
    AddAllFacts([], strings);
    assert LongToString(c.hashes[0]) == Ok(strings[0]);
    AddAllFirst(strings);
  }

  /** The first member of the set is the first string added. */
  lemma AddAllFirst<T>(xs: seq<T>)
    requires xs != []
    ensures AddAll([], xs) != [] && AddAll([], xs)[0] == xs[0]
  {
    AddAllFacts([], xs[..1]);
    AddAllConcat([], xs[..1], xs[1..]);
    assert xs[..1] + xs[1..] == xs;
    assert AddAll([], xs[..1]) == [xs[0]];
    AddAllFacts([xs[0]], xs[1..]);
  }

  /** `CoverageLongs?.toCoverage()`: `null` stays `null`. */
  function ToCoverage(c: Option<CoverageLongs>): (r: Result<Option<Coverage>>)
  {
    if c.None? then Ok(None)
    else
      var converted := FromCoverageLongs(c.value);
      if converted.Fail? then Fail(converted.reason) else Ok(Some(converted.value))
  }

  /** `null` converts to `null`, a value to a value whenever its words
      convert. */
  lemma ToCoverageCases(c: Option<CoverageLongs>)
    ensures c.None? ==> ToCoverage(c) == Ok(None)
    ensures c.Some? ==> (ToCoverage(c).Ok? <==> FromCoverageLongs(c.value).Ok?)
    ensures c.Some? && ToCoverage(c).Ok? ==> ToCoverage(c).value == Some(FromCoverageLongs(c.value).value)
  {
  }
}
