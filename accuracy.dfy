/** `Accuracy`: named geohash lengths, from about 5000 km cells (one
    character) down to about 3 cm cells (twelve characters). */
module Accuracies {

  datatype Accuracy =
    | About5000km | About1000km | About150km | About30km
    | About5km | About1km | About150m | About30m
    | About5m | About1m | About1dm | About3cm

  /** The entries in declaration order (Kotlin's `Accuracy.entries`). */
  const VALUES: seq<Accuracy> := [
    About5000km, About1000km, About150km, About30km,
    About5km, About1km, About150m, About30m,
    About5m, About1m, About1dm, About3cm
  ]

  /** The position of `a` in the declaration (Kotlin's `ordinal`). */
  function Ordinal(a: Accuracy): (i: nat)
    ensures i < |VALUES| && VALUES[i] == a
  {
    match a
    case About5000km => 0
    case About1000km => 1
    case About150km => 2
    case About30km => 3
    case About5km => 4
    case About1km => 5
    case About150m => 6
    case About30m => 7
    case About5m => 8
    case About1m => 9
    case About1dm => 10
    case About3cm => 11
  }

  /** The `length` property: the geohash length the accuracy names. Every
      length is a valid geohash length, and it is one more than the ordinal. */
  function Length(a: Accuracy): (n: int)
    ensures 1 <= n <= 12
    ensures n == Ordinal(a) + 1
  {
    match a
    case About5000km => 1
    case About1000km => 2
    case About150km => 3
    case About30km => 4
    case About5km => 5
    case About1km => 6
    case About150m => 7
    case About30m => 8
    case About5m => 9
    case About1m => 10
    case About1dm => 11
    case About3cm => 12
  }

  /** Lengths strictly increase in declaration order, so finer accuracies come later. */
  lemma LengthsIncrease(i: nat, j: nat)
    requires i < j < |VALUES|
    ensures Length(VALUES[i]) < Length(VALUES[j])
  {
    OrdinalOfValue(i);
    OrdinalOfValue(j);
  }

  /** `VALUES` and `Ordinal` are inverse. */
  lemma OrdinalOfValue(i: nat)
    requires i < |VALUES|
    ensures Ordinal(VALUES[i]) == i
  {
  }

  /** The lengths the documentation and the tests name. */
  lemma KnownLengths()
    ensures Length(About5000km) == 1 && Length(About150km) == 3
    ensures Length(About5km) == 5 && Length(About5m) == 9
    ensures Length(About1m) == 10 && Length(About3cm) == 12
  {
  }
}
