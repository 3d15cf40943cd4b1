/** What a formatter produces before it is turned into text. */
module Segments {
  import opened Ladder
  import opened Locale

  /** One `"{count} {label}"` piece of the output. */
  datatype Segment = Segment(count: nat, unit: TimeUnit, name: Label)

  /** An exact breakdown (parts joined by spaces) or a relative phrase (`ago` token, one part). */
  datatype Phrase = Exact(parts: seq<Segment>, short: bool) | Relative(ago: string, part: Segment)

  /** The seconds a list of segments stands for. */
  function Total(parts: seq<Segment>): nat {
    if parts == [] then 0 else parts[0].count * Size(parts[0].unit) + Total(parts[1..])
  }

  /** The first `n` segments, or all of them when there are fewer; none when `n <= 0`. */
  function Prefix(parts: seq<Segment>, n: int): (r: seq<Segment>)
    ensures |r| <= |parts| && (n >= 0 ==> |r| <= n) && r == parts[..|r|]
    ensures 0 <= n <= |parts| ==> |r| == n
    ensures n >= |parts| ==> r == parts
  {
    if n <= 0 then [] else if n >= |parts| then parts else parts[..n]
  }
}
