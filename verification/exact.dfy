/** `formatExactTime` (lirleur.ts:69-102): a greedy walk down the ladder, capped at `precision` parts. */
module Exact {
  import opened Ladder
  import opened Locale
  import opened Segments
  import Arith

  /** The label the walk attaches to `count` units of `u`. */
  function ExactLabel(lang: Language, u: TimeUnit, count: nat, short: bool): Label {
    if short then ShortLabel(lang, u) else LongLabel(lang, u, count)
  }

  /** How the walk labels `count` units of a unit; kept abstract in the walk's own proofs. */
  type Labeller = (TimeUnit, nat) -> Label

  function Labels(lang: Language, short: bool): Labeller {
    (u: TimeUnit, count: nat) => ExactLabel(lang, u, count, short)
  }

  /** The remainder the walk holds when it reaches `u`, in closed form: the seconds left over
      once every larger unit has taken its share. */
  function Held(s: nat, u: TimeUnit): nat {
    match u
    case Years => s
    case Months => s % 31536000
    case Days => s % 31536000 % 2592000
    case Hours => s % 86400
    case Minutes => s % 3600
    case Seconds => s % 60
  }

  /** The remainder on reaching ladder position `i`; nothing is left after the seconds step. */
  function HeldAt(s: nat, i: nat): nat
    requires i <= |Units|
  {
    if i < |Units| then Held(s, Units[i]) else 0
  }

  /** How many of `u` the greedy decomposition of `s` takes: what is held on reaching `u`,
      divided by the unit's size. */
  function Count(s: nat, u: TimeUnit): (c: nat)
    ensures c == Held(s, u) / Size(u)
  {
    match u
    case Years => s / 31536000
    case Months => s % 31536000 / 2592000
    case Days => s % 31536000 % 2592000 / 86400
    case Hours => s % 86400 / 3600
    case Minutes => s % 3600 / 60
    case Seconds => s % 60
  }

  /** The reference decomposition: every unit from position `i` down whose count is non-zero. */
  function Nonzero(s: nat, lbl: Labeller, i: nat): seq<Segment>
    requires i <= |Units|
    decreases |Units| - i
  {
    if i == |Units| then []
    else
      var u := Units[i];
      var c := Count(s, u);
      (if c > 0 then [Segment(c, u, lbl(u, c))] else []) + Nonzero(s, lbl, i + 1)
  }

  /** The loop of lirleur.ts:87-99 from ladder position `i`, with `rem` seconds still to place and
      `parts` emitted so far; the cap is tested after every step, whether or not it emitted. */
  function Walk(precision: int, lbl: Labeller, i: nat, rem: nat, parts: seq<Segment>): seq<Segment>
    requires i <= |Units|
    decreases |Units| - i
  {
    if i == |Units| then parts
    else
      var u := Units[i];
      var value := rem / Size(u);
      var rem' := if value > 0 then rem % Size(u) else rem;
      var parts' := if value > 0 then parts + [Segment(value, u, lbl(u, value))] else parts;
      if |parts'| >= precision then parts'
      else Walk(precision, lbl, i + 1, rem', parts')
  }

  /** Whatever the seconds held, the walk only appends to the parts it is given, at most one part
      per remaining unit, each with a positive count and the labeller's label, and never goes past
      a cap it starts under. */
  lemma {:induction false} WalkAppends(precision: int, lbl: Labeller, i: nat, rem: nat, parts: seq<Segment>)
    requires i <= |Units|
    ensures var r := Walk(precision, lbl, i, rem, parts);
            && parts <= r && |r| <= |parts| + |Units| - i
            && (|parts| < precision ==> |r| <= precision)
            && (forall k :: |parts| <= k < |r| ==> r[k].count > 0 && r[k].name == lbl(r[k].unit, r[k].count))
    decreases |Units| - i
  {
    if i < |Units| {
      var u := Units[i];
      var value := rem / Size(u);
      var rem' := if value > 0 then rem % Size(u) else rem;
      var parts' := if value > 0 then parts + [Segment(value, u, lbl(u, value))] else parts;
      if |parts'| < precision {
        WalkAppends(precision, lbl, i + 1, rem', parts');
      }
    }
  }

  /** `formatExactTime` up to joining: the `precision` most significant non-zero units of `s`;
      with `precision <= 0` the walk stops after the years step, keeping at most a years part. */
  function FormatExact(s: nat, lang: Language, precision: int, short: bool): (r: seq<Segment>)
    ensures precision >= 1 ==> r == Prefix(Nonzero(s, Labels(lang, short), 0), precision)
    ensures precision < 1 ==> r == Prefix(Nonzero(s, Labels(lang, short), 0), if Count(s, Years) > 0 then 1 else 0)
  {
    if precision >= 1 then
      WalkTakesPrefix(s, precision, Labels(lang, short), 0, []);
      Walk(precision, Labels(lang, short), 0, s, [])
    else
      Walk(precision, Labels(lang, short), 0, s, [])
  }

  /** One ladder step carries the closed-form remainder to the next position. */
  lemma HeldStep(s: nat, i: nat)
    requires i < |Units|
    ensures var u := Units[i];
            var value := Held(s, u) / Size(u);
            (if value > 0 then Held(s, u) % Size(u) else Held(s, u)) == HeldAt(s, i + 1)
  {
    var u := Units[i];
    var h := Held(s, u);
    if h / Size(u) == 0 {
      assert h < Size(u);
      assert h % Size(u) == h;
    }
    match u
    case Years =>
    case Months =>
    case Days =>
      var y := s / 31536000;
      var mo := s % 31536000 / 2592000;
      var x := s % 31536000 % 2592000;
      assert s == 86400 * (365 * y + 30 * mo) + x;
      Arith.DivModUnique(s, 86400, 365 * y + 30 * mo + x / 86400, x % 86400);
    case Hours =>
      var d := s / 86400;
      assert s == 3600 * (24 * d) + s % 86400;
      Arith.DivModUnique(s, 3600, 24 * d + s % 86400 / 3600, s % 86400 % 3600);
    case Minutes =>
      var h := s / 3600;
      assert s == 60 * (60 * h) + s % 3600;
      Arith.DivModUnique(s, 60, 60 * h + s % 3600 / 60, s % 3600 % 60);
    case Seconds =>
  }

  /** One step of the walk, entered with the closed-form remainder, in terms of `Count`. */
  lemma WalkStep(s: nat, precision: int, lbl: Labeller, i: nat, parts: seq<Segment>)
    requires i < |Units|
    ensures var u := Units[i];
            var c := Count(s, u);
            var parts' := if c > 0 then parts + [Segment(c, u, lbl(u, c))] else parts;
            Walk(precision, lbl, i, HeldAt(s, i), parts)
            == if |parts'| >= precision then parts' else Walk(precision, lbl, i + 1, HeldAt(s, i + 1), parts')
  {
    HeldStep(s, i);
  }

  /** The sequence bookkeeping of a step that emits `seg`, apart from the walk itself. */
  lemma EmitCase(precision: int, parts: seq<Segment>, seg: Segment, rest: seq<Segment>, here: seq<Segment>, next: seq<Segment>)
    requires |parts| < precision
    requires here == if |parts + [seg]| >= precision then parts + [seg] else next
    requires |parts| + 1 < precision ==> next == (parts + [seg]) + Prefix(rest, precision - |parts + [seg]|)
    ensures here == parts + Prefix([seg] + rest, precision - |parts|)
  {
    var n := precision - |parts|;
    assert Prefix([seg] + rest, n) == [seg] + Prefix(rest, n - 1);
    if |parts| + 1 < precision {
      assert (parts + [seg]) + Prefix(rest, n - 1) == parts + ([seg] + Prefix(rest, n - 1));
    } else {
      assert Prefix(rest, n - 1) == [];
    }
  }

  /** The walk, entered with the closed-form remainder and room under the cap, emits the next
      non-zero units until the cap is reached. */
  lemma {:induction false} WalkTakesPrefix(s: nat, precision: int, lbl: Labeller, i: nat, parts: seq<Segment>)
    requires i <= |Units| && |parts| < precision
    ensures Walk(precision, lbl, i, HeldAt(s, i), parts)
            == parts + Prefix(Nonzero(s, lbl, i), precision - |parts|)
    decreases |Units| - i, 1
  {
    if i == |Units| {
      assert Nonzero(s, lbl, i) == [];
    } else if Count(s, Units[i]) > 0 {
      WalkEmits(s, precision, lbl, i, parts);
    } else {
      WalkSkips(s, precision, lbl, i, parts);
    }
  }

  /** A step whose unit has a non-zero count emits it, then stops if the cap is reached. */
  lemma {:induction false} WalkEmits(s: nat, precision: int, lbl: Labeller, i: nat, parts: seq<Segment>)
    requires i < |Units| && |parts| < precision && Count(s, Units[i]) > 0
    ensures Walk(precision, lbl, i, HeldAt(s, i), parts)
            == parts + Prefix(Nonzero(s, lbl, i), precision - |parts|)
    decreases |Units| - i, 0
  {
    var u := Units[i];
    var c := Count(s, u);
    var rest := Nonzero(s, lbl, i + 1);
    var seg := Segment(c, u, lbl(u, c));
    var here := Walk(precision, lbl, i, HeldAt(s, i), parts);
    var next := Walk(precision, lbl, i + 1, HeldAt(s, i + 1), parts + [seg]);
    assert here == if |parts + [seg]| >= precision then parts + [seg] else next by {
      WalkStep(s, precision, lbl, i, parts);
    }
    assert Nonzero(s, lbl, i) == [seg] + rest;
    assert |parts| + 1 < precision ==> next == (parts + [seg]) + Prefix(rest, precision - |parts + [seg]|) by {
      if |parts| + 1 < precision {
        WalkTakesPrefix(s, precision, lbl, i + 1, parts + [seg]);
      }
    }
    EmitCase(precision, parts, seg, rest, here, next);
  }

  /** A step whose unit has a zero count emits nothing and, being under the cap, goes on. */
  lemma {:induction false} WalkSkips(s: nat, precision: int, lbl: Labeller, i: nat, parts: seq<Segment>)
    requires i < |Units| && |parts| < precision && Count(s, Units[i]) == 0
    ensures Walk(precision, lbl, i, HeldAt(s, i), parts)
            == parts + Prefix(Nonzero(s, lbl, i), precision - |parts|)
    decreases |Units| - i, 0
  {
    WalkStep(s, precision, lbl, i, parts);
    assert Nonzero(s, lbl, i) == Nonzero(s, lbl, i + 1);
    WalkTakesPrefix(s, precision, lbl, i + 1, parts);
  }

  /** Every part of the reference decomposition has a positive count equal to the unit's greedy
      count and the label the walk gives it, and the parts come strictly down the ladder. */
  lemma {:induction false} NonzeroShape(s: nat, lbl: Labeller, i: nat)
    requires i <= |Units|
    ensures var n := Nonzero(s, lbl, i);
            && |n| <= |Units| - i
            && (forall k :: 0 <= k < |n| ==>
                 && n[k].count > 0
                 && n[k].count == Count(s, n[k].unit)
                 && n[k].name == lbl(n[k].unit, n[k].count)
                 && i <= Rank(n[k].unit))
            && (forall j, k :: 0 <= j < k < |n| ==> Rank(n[j].unit) < Rank(n[k].unit))
    decreases |Units| - i
  {
    if i < |Units| {
      NonzeroShape(s, lbl, i + 1);
      RankOfPosition(i);
    }
  }

  /** A ladder step splits what is held into the part it takes and what it passes down. */
  lemma StepSplits(s: nat, i: nat)
    requires i < |Units|
    ensures HeldAt(s, i) == Count(s, Units[i]) * Size(Units[i]) + HeldAt(s, i + 1)
  {
    HeldStep(s, i);
    DivSplits(HeldAt(s, i), Size(Units[i]), Count(s, Units[i]), HeldAt(s, i + 1));
  }

  lemma DivSplits(h: nat, z: nat, c: nat, h': nat)
    requires z >= 1 && c == h / z && h' == (if c > 0 then h % z else h)
    ensures h == c * z + h'
  {
  }

  lemma TotalCons(seg: Segment, rest: seq<Segment>)
    ensures Total([seg] + rest) == seg.count * Size(seg.unit) + Total(rest)
  {
    assert ([seg] + rest)[1..] == rest;
  }

  /** The reference decomposition accounts for exactly the seconds held at position `i`. */
  lemma {:induction false} TotalNonzero(s: nat, lbl: Labeller, i: nat)
    requires i <= |Units|
    ensures Total(Nonzero(s, lbl, i)) == HeldAt(s, i)
    decreases |Units| - i
  {
    if i < |Units| {
      TotalNonzero(s, lbl, i + 1);
      StepSplits(s, i);
      var u := Units[i];
      var c := Count(s, u);
      var rest := Nonzero(s, lbl, i + 1);
      if c > 0 {
        var seg := Segment(c, u, lbl(u, c));
        assert Nonzero(s, lbl, i) == [seg] + rest;
        TotalCons(seg, rest);
        assert Total(Nonzero(s, lbl, i)) == c * Size(u) + HeldAt(s, i + 1);
      } else {
        assert Nonzero(s, lbl, i) == rest;
        assert HeldAt(s, i) == HeldAt(s, i + 1);
      }
    } else {
      assert Nonzero(s, lbl, i) == [];
    }
  }

  /** Cutting the reference decomposition after its `k`-th part leaves exactly the seconds held
      just below that part's unit. */
  lemma {:induction false} PrefixRemainder(s: nat, lbl: Labeller, i: nat, k: nat)
    requires i <= |Units|
    requires 1 <= k <= |Nonzero(s, lbl, i)|
    ensures var n := Nonzero(s, lbl, i);
            Rank(n[k - 1].unit) < |Units| &&
            Total(n[..k]) + HeldAt(s, Rank(n[k - 1].unit) + 1) == HeldAt(s, i)
    decreases |Units| - i, 1
  {
    if Count(s, Units[i]) > 0 {
      PrefixRemainderEmits(s, lbl, i, k);
    } else {
      assert Nonzero(s, lbl, i) == Nonzero(s, lbl, i + 1);
      assert HeldAt(s, i) == HeldAt(s, i + 1) by {
        StepSplits(s, i);
      }
      PrefixRemainder(s, lbl, i + 1, k);
    }
  }

  /** The case of `PrefixRemainder` whose first unit has a non-zero count. */
  lemma {:induction false} PrefixRemainderEmits(s: nat, lbl: Labeller, i: nat, k: nat)
    requires i < |Units| && Count(s, Units[i]) > 0
    requires 1 <= k <= |Nonzero(s, lbl, i)|
    ensures var n := Nonzero(s, lbl, i);
            Rank(n[k - 1].unit) < |Units| &&
            Total(n[..k]) + HeldAt(s, Rank(n[k - 1].unit) + 1) == HeldAt(s, i)
    decreases |Units| - i, 0
  {
    var u := Units[i];
    var c := Count(s, u);
    var seg := Segment(c, u, lbl(u, c));
    var rest := Nonzero(s, lbl, i + 1);
    assert Nonzero(s, lbl, i) == [seg] + rest;
    assert HeldAt(s, i) == c * Size(u) + HeldAt(s, i + 1) by {
      StepSplits(s, i);
    }
    if k == 1 {
      FirstRemainder(s, i, seg, rest);
    } else {
      PrefixRemainder(s, lbl, i + 1, k - 1);
      LaterRemainder(s, i, k, seg, rest);
    }
  }

  /** Cutting after the first part leaves what is held below its unit. */
  lemma FirstRemainder(s: nat, i: nat, seg: Segment, rest: seq<Segment>)
    requires i < |Units| && seg.unit == Units[i]
    requires HeldAt(s, i) == seg.count * Size(seg.unit) + HeldAt(s, i + 1)
    ensures var n := [seg] + rest;
            Rank(n[0].unit) < |Units| &&
            Total(n[..1]) + HeldAt(s, Rank(n[0].unit) + 1) == HeldAt(s, i)
  {
    var n := [seg] + rest;
    RankOfPosition(i);
    assert n[..1] == [seg] + [];
    TotalCons(seg, []);
  }

  /** Cutting after a later part adds the first part to the cut of the rest. */
  lemma LaterRemainder(s: nat, i: nat, k: nat, seg: Segment, rest: seq<Segment>)
    requires i < |Units| && 2 <= k <= |rest| + 1
    requires HeldAt(s, i) == seg.count * Size(seg.unit) + HeldAt(s, i + 1)
    requires Rank(rest[k - 2].unit) < |Units|
    requires Total(rest[..k - 1]) + HeldAt(s, Rank(rest[k - 2].unit) + 1) == HeldAt(s, i + 1)
    ensures var n := [seg] + rest;
            Rank(n[k - 1].unit) < |Units| &&
            Total(n[..k]) + HeldAt(s, Rank(n[k - 1].unit) + 1) == HeldAt(s, i)
  {
    var n := [seg] + rest;
    assert n[k - 1] == rest[k - 2];
    assert n[..k] == [seg] + rest[..k - 1];
    TotalCons(seg, rest[..k - 1]);
    Rebalance(Total(n[..k]), seg.count * Size(seg.unit), Total(rest[..k - 1]),
              HeldAt(s, Rank(rest[k - 2].unit) + 1), HeldAt(s, i), HeldAt(s, i + 1));
  }

  lemma Rebalance(total: int, w: int, tail: int, below: int, held: int, held': int)
    requires total == w + tail && tail + below == held' && held == w + held'
    ensures total + below == held
  {
  }

  /** Zero seconds have no non-zero unit. */
  lemma {:induction false} NonzeroOfZero(lbl: Labeller, i: nat)
    requires i <= |Units|
    ensures Nonzero(0, lbl, i) == []
    decreases |Units| - i
  {
    if i < |Units| {
      assert Count(0, Units[i]) == 0;
      NonzeroOfZero(lbl, i + 1);
    }
  }

  /** `formatExactTime` emits at most `precision` parts (one years part at most when
      `precision <= 0`), each with a positive greedy count, strictly down the ladder. */
  lemma ExactShape(s: nat, lang: Language, precision: int, short: bool)
    ensures var r := FormatExact(s, lang, precision, short);
            && (precision >= 1 ==> |r| <= precision)
            && (precision < 1 ==> |r| <= 1 && forall k :: 0 <= k < |r| ==> r[k].unit == Years)
            && (forall k :: 0 <= k < |r| ==>
                 && r[k].count > 0
                 && r[k].count == Count(s, r[k].unit)
                 && r[k].name == ExactLabel(lang, r[k].unit, r[k].count, short))
            && (forall j, k :: 0 <= j < k < |r| ==> Size(r[j].unit) > Size(r[k].unit))
  {
    var lbl := Labels(lang, short);
    var r := FormatExact(s, lang, precision, short);
    var n := Nonzero(s, lbl, 0);
    ExactPrefix(s, lang, precision, short);
    PrefixShape(s, lbl, |r|);
    forall k | 0 <= k < |r|
      ensures r[k].name == ExactLabel(lang, r[k].unit, r[k].count, short)
    {
      LabelsApply(lang, short, r[k].unit, r[k].count);
    }
    if precision < 1 && |r| == 1 {
      assert Count(s, Years) > 0;
      assert n[0].unit == Years;
    }
  }

  /** The result is the reference decomposition cut to its first parts. */
  lemma ExactPrefix(s: nat, lang: Language, precision: int, short: bool)
    ensures var r := FormatExact(s, lang, precision, short);
            var n := Nonzero(s, Labels(lang, short), 0);
            && |r| <= |n|
            && r == n[..|r|]
            && (precision >= 1 ==> |r| <= precision)
            && (precision < 1 ==> |r| <= 1)
  {
  }

  /** Any prefix of the decomposition has positive greedy counts, labels from `lbl`, and sizes
      strictly down the ladder. */
  lemma PrefixShape(s: nat, lbl: Labeller, m: nat)
    requires m <= |Nonzero(s, lbl, 0)|
    ensures var r := Nonzero(s, lbl, 0)[..m];
            && (forall k :: 0 <= k < |r| ==>
                 && r[k].count > 0
                 && r[k].count == Count(s, r[k].unit)
                 && r[k].name == lbl(r[k].unit, r[k].count))
            && (forall j, k :: 0 <= j < k < |r| ==> Size(r[j].unit) > Size(r[k].unit))
  {
    var n := Nonzero(s, lbl, 0);
    NonzeroShape(s, lbl, 0);
    forall j, k | 0 <= j < k < m
      ensures Size(n[j].unit) > Size(n[k].unit)
    {
      LadderDescends(n[j].unit, n[k].unit);
    }
  }

  lemma LabelsApply(lang: Language, short: bool, u: TimeUnit, count: nat)
    ensures Labels(lang, short)(u, count) == ExactLabel(lang, u, count, short)
  {
  }

  /** Nothing is emitted for zero seconds; with a positive precision, only for zero seconds. */
  lemma ExactEmpty(s: nat, lang: Language, precision: int, short: bool)
    ensures FormatExact(0, lang, precision, short) == []
    ensures precision >= 1 ==> (FormatExact(s, lang, precision, short) == [] <==> s == 0)
  {
    var lbl := Labels(lang, short);
    NonzeroOfZero(lbl, 0);
    TotalNonzero(s, lbl, 0);
    if s > 0 {
      assert Nonzero(s, lbl, 0) != [];
    }
  }

  /** Below the years the greedy counts stay under the next unit up: at most 12 months (twelve
      30-day months fit in a 365-day year), under 30 days, 24 hours, 60 minutes, 60 seconds. */
  lemma CountBounds(s: nat)
    ensures Count(s, Months) <= 12
    ensures Count(s, Days) < 30
    ensures Count(s, Hours) < 24
    ensures Count(s, Minutes) < 60
    ensures Count(s, Seconds) < 60
    ensures Count(31104000, Months) == 12
  {
  }

  /** When the cap is not reached, in particular whenever `precision` covers the whole ladder,
      the parts add up to the input exactly. */
  lemma ExactSumsUncapped(s: nat, lang: Language, precision: int, short: bool)
    ensures var r := FormatExact(s, lang, precision, short);
            && (|Nonzero(s, Labels(lang, short), 0)| <= precision ==> Total(r) == s)
            && (precision >= |Units| ==> Total(r) == s)
  {
    var lbl := Labels(lang, short);
    var n := Nonzero(s, lbl, 0);
    TotalNonzero(s, lbl, 0);
    NonzeroLength(s, lbl, 0);
    if |n| <= precision {
      assert Prefix(n, precision) == n;
    }
  }

  lemma {:induction false} NonzeroLength(s: nat, lbl: Labeller, i: nat)
    requires i <= |Units|
    ensures |Nonzero(s, lbl, i)| <= |Units| - i
    decreases |Units| - i
  {
    if i < |Units| {
      NonzeroLength(s, lbl, i + 1);
    }
  }

  /** When the cap is reached the parts fall short of the input by less than one of the
      smallest unit emitted: what lies below it is truncated, never rounded up. */
  lemma ExactTruncates(s: nat, lang: Language, precision: int, short: bool)
    ensures var r := FormatExact(s, lang, precision, short);
            r != [] ==> Total(r) <= s && s - Total(r) < Size(r[|r| - 1].unit)
  {
    var r := FormatExact(s, lang, precision, short);
    if r != [] {
      ExactPrefix(s, lang, precision, short);
      PrefixTruncates(s, Labels(lang, short), |r|);
    }
  }

  /** Any non-empty prefix of the decomposition falls short of `s` by less than one of its
      last unit. */
  lemma PrefixTruncates(s: nat, lbl: Labeller, k: nat)
    requires 1 <= k <= |Nonzero(s, lbl, 0)|
    ensures var p := Nonzero(s, lbl, 0)[..k];
            Total(p) <= s && s - Total(p) < Size(p[k - 1].unit)
  {
    var n := Nonzero(s, lbl, 0);
    var u := n[k - 1].unit;
    var j := Rank(u);
    var h := HeldAt(s, j + 1);
    assert Total(n[..k]) + h == s by {
      PrefixRemainder(s, lbl, 0, k);
    }
    assert h < Size(u) by {
      HeldBelow(s, j);
    }
    assert n[..k][k - 1] == n[k - 1];
  }

  /** What is held just below a unit is less than one of that unit. */
  lemma HeldBelow(s: nat, j: nat)
    requires j < |Units|
    ensures HeldAt(s, j + 1) < Size(Units[j])
  {
  }

  /** The part the decomposition of `s` has for `u`: one segment, or none for a zero count. */
  function Piece(s: nat, lbl: Labeller, u: TimeUnit): seq<Segment> {
    if Count(s, u) > 0 then [Segment(Count(s, u), u, lbl(u, Count(s, u)))] else []
  }

  /** The reference decomposition written out unit by unit. */
  lemma NonzeroUnrolled(s: nat, lbl: Labeller)
    ensures Nonzero(s, lbl, 0)
            == Piece(s, lbl, Years) + (Piece(s, lbl, Months) + (Piece(s, lbl, Days)
             + (Piece(s, lbl, Hours) + (Piece(s, lbl, Minutes) + Piece(s, lbl, Seconds)))))
  {
    NonzeroCons(s, lbl, 0);
    NonzeroCons(s, lbl, 1);
    NonzeroCons(s, lbl, 2);
    NonzeroCons(s, lbl, 3);
    NonzeroCons(s, lbl, 4);
    NonzeroCons(s, lbl, 5);
    assert Piece(s, lbl, Seconds) + [] == Piece(s, lbl, Seconds);
  }

  lemma NonzeroCons(s: nat, lbl: Labeller, i: nat)
    requires i < |Units|
    ensures Nonzero(s, lbl, i) == Piece(s, lbl, Units[i]) + Nonzero(s, lbl, i + 1)
  {
  }
}
