/** The fixed unit ladder that `formatExactTime` walks (lirleur.ts:76-83). */
module Ladder {

  datatype TimeUnit = Years | Months | Days | Hours | Minutes | Seconds

  /** The ladder, most significant unit first. */
  const Units: seq<TimeUnit> := [Years, Months, Days, Hours, Minutes, Seconds]

  /** The unit's `label`: the property name under which a locale bundle keeps its forms. */
  function Key(u: TimeUnit): string {
    match u
    case Years => "years"
    case Months => "months"
    case Days => "days"
    case Hours => "hours"
    case Minutes => "minutes"
    case Seconds => "seconds"
  }

  /** The first letter of the unit's property name, which short mode looks abbreviations up by. */
  function Initial(u: TimeUnit): (c: char)
    ensures |Key(u)| >= 1 && c == Key(u)[0]
    ensures 'a' <= c <= 'z'
  {
    Key(u)[0]
  }

  /** Two units share an abbreviation key exactly when they are the same unit or are months and
      minutes, whose property names both start with 'm'. */
  lemma InitialsCollide(u: TimeUnit, v: TimeUnit)
    ensures Initial(u) == Initial(v) <==>
            u == v || (u == Months && v == Minutes) || (u == Minutes && v == Months)
  {
  }

  /** The unit's `value`: seconds per unit. A year is 365 days and a month 30 days. */
  function Size(u: TimeUnit): (r: nat)
    ensures r >= 1
  {
    match u
    case Years => 31536000
    case Months => 2592000
    case Days => 86400
    case Hours => 3600
    case Minutes => 60
    case Seconds => 1
  }

  /** Position of a unit on the ladder: the inverse of indexing `Units`. */
  function Rank(u: TimeUnit): (r: nat)
    ensures r < |Units| && Units[r] == u
  {
    match u
    case Years => 0
    case Months => 1
    case Days => 2
    case Hours => 3
    case Minutes => 4
    case Seconds => 5
  }

  /** Every unit appears once on the ladder, so `Rank` undoes indexing too. */
  lemma RankOfPosition(i: nat)
    requires i < |Units|
    ensures Rank(Units[i]) == i
  {
  }

  /** The ladder is strictly descending: lower on the ladder means fewer seconds. */
  lemma LadderDescends(u: TimeUnit, v: TimeUnit)
    ensures Rank(u) < Rank(v) <==> Size(u) > Size(v)
  {
  }
}
