/** `String.toAccuracy`: truncation of a text geohash to a named accuracy. */
module GeohashExtension {
  import opened Accuracies

  function Min(a: int, b: int): int
  {
    if a <= b then a else b
  }

  /** `take(accuracy.length)`: the first `accuracy.length` characters, or the
      whole string when it is shorter. */
  function ToAccuracy(geohash: string, accuracy: Accuracy): (r: string)
    ensures r <= geohash
    ensures |r| == Min(|geohash|, Length(accuracy))
  {
    if |geohash| <= Length(accuracy) then geohash else geohash[..Length(accuracy)]
  }

  /** A hash already no longer than the accuracy is returned unchanged. */
  lemma ShortHashUnchanged(geohash: string, accuracy: Accuracy)
    requires |geohash| <= Length(accuracy)
    ensures ToAccuracy(geohash, accuracy) == geohash
  {
  }

  /** Truncating twice to the same accuracy is truncating once. */
  lemma ToAccuracyIdempotent(geohash: string, accuracy: Accuracy)
    ensures ToAccuracy(ToAccuracy(geohash, accuracy), accuracy) == ToAccuracy(geohash, accuracy)
  {
  }

  /** Truncating to `a` and then to `b` keeps the prefix of the shorter of the two lengths. */
  lemma ToAccuracyTwice(geohash: string, a: Accuracy, b: Accuracy)
    ensures ToAccuracy(ToAccuracy(geohash, a), b)
         == geohash[..Min(|geohash|, Min(Length(a), Length(b)))]
  {
    var once := ToAccuracy(geohash, a);
    var twice := ToAccuracy(once, b);
    assert twice <= once <= geohash;
  }

  /** The documented sample: "9q9hr5udfr" at 150 km, 5 km and 5 m, and a
      short hash that a finer accuracy leaves alone. */
  lemma DocumentedSamples()
    ensures ToAccuracy("9q9hr5udfr", About150km) == "9q9"
    ensures ToAccuracy("9q9hr5udfr", About5km) == "9q9hr"
    ensures ToAccuracy("9q9hr5udfr", About5m) == "9q9hr5udf"
    ensures ToAccuracy("9q9hr5ud", About3cm) == "9q9hr5ud"
  {
  }
}
