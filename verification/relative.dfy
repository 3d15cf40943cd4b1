/** `formatRelativeTime` (lirleur.ts:107-143): one coarsest unit, prefixed by the `ago` token. */
module Relative {
  import opened Outcomes
  import opened Ladder
  import opened Locale
  import opened Segments
  import Arith

  /** The phrase of one branch of the cascade: the locale's `ago` word and one part whose label is
      the plural read under `pluralKey` for counts above 1, else the singular read under
      `singularKey`; it fails when the property it reads is absent. */
  function Phrased(strings: Bundle, count: nat, u: TimeUnit, pluralKey: string, singularKey: string): Result<Phrase, Error> {
    match (if count > 1 then Read(strings, pluralKey, true) else Read(strings, singularKey, false))
    case Success(text) => Success(Relative(strings.ago, Segment(count, u, Word(text))))
    case Failure(e) => Failure(e)
  }

  /** The threshold cascade with nested floors, as written; the hours branch indexes the plural
      under the property name "hoursa", which no bundle has. */
  function FormatRelative(s: nat, lang: Language): (r: Result<Phrase, Error>)
    ensures r.Failure? ==> r.error == ReadOfUndefined("hoursa")
    ensures r.Success? ==> r.value.Relative? && r.value.ago == Table(lang).ago && r.value.part.name.Word?
  {
    var strings := Table(lang);
    if s < 60 then Phrased(strings, s, Seconds, Key(Seconds), Key(Seconds))
    else
      var minutes := s / 60;
      if minutes < 60 then Phrased(strings, minutes, Minutes, Key(Minutes), Key(Minutes))
      else
        var hours := minutes / 60;
        if hours < 24 then Phrased(strings, hours, Hours, "hoursa", Key(Hours))
        else
          var days := hours / 24;
          if days < 30 then Phrased(strings, days, Days, Key(Days), Key(Days))
          else
            var months := days / 30;
            if months < 12 then Phrased(strings, months, Months, Key(Months), Key(Months))
            else
              var years := months / 12;
              Phrased(strings, years, Years, Key(Years), Key(Years))
  }

  /** The unit relative mode settles on, by ascending thresholds in seconds. */
  function CoarsestUnit(s: nat): TimeUnit {
    if s < 60 then Seconds
    else if s < 3600 then Minutes
    else if s < 86400 then Hours
    else if s < 2592000 then Days
    else if s < 31104000 then Months
    else Years
  }

  /** Seconds per unit in relative mode: the ladder's sizes, except that a year is twelve 30-day
      months (360 days) rather than 365 days. */
  function Span(u: TimeUnit): (r: nat)
    ensures r >= 1
    ensures u != Years ==> r == Size(u)
    ensures u == Years ==> r == 12 * Size(Months) < Size(Years)
  {
    if u == Years then 31104000 else Size(u)
  }

  /** The nested floors of the cascade are plain floors by the unit's span. */
  lemma NestedFloors(s: nat)
    ensures s / 60 / 60 == s / 3600
    ensures s / 60 / 60 / 24 == s / 86400
    ensures s / 60 / 60 / 24 / 30 == s / 2592000
    ensures s / 60 / 60 / 24 / 30 / 12 == s / 31104000
  {
    Arith.FloorOfFloor(s, 60, 60);
    Arith.FloorOfFloor(s, 3600, 24);
    Arith.FloorOfFloor(s, 86400, 30);
    Arith.FloorOfFloor(s, 2592000, 12);
  }

  /** The property the plural of a unit is read from: the unit's own key, except "hoursa". */
  function PluralKey(u: TimeUnit): string {
    if u == Hours then "hoursa" else Key(u)
  }

  /** The cascade is a single phrase in the coarsest unit, counted by floor over its span. */
  lemma RelativeIsPhrased(s: nat, lang: Language)
    ensures var u := CoarsestUnit(s);
            FormatRelative(s, lang) == Phrased(Table(lang), s / Span(u), u, PluralKey(u), Key(u))
  {
    NestedFloors(s);
  }

  /** A phrase that reads successfully carries the bundle's `ago`, the count and unit given, and
      the form read for that count. */
  lemma PhrasedShape(strings: Bundle, count: nat, u: TimeUnit, pluralKey: string, singularKey: string)
    ensures var r := Phrased(strings, count, u, pluralKey, singularKey);
            r.Success? ==>
              && r.value.Relative?
              && r.value.ago == strings.ago
              && r.value.part.count == count
              && r.value.part.unit == u
              && r.value.part.name.Word?
              && Success(r.value.part.name.text)
                 == (if count > 1 then Read(strings, pluralKey, true) else Read(strings, singularKey, false))
  {
  }

  /** Relative mode emits one part behind the locale's `ago` token, in the first unit from
      seconds up whose count is under its threshold (the coarsest unit with a count of at least 1,
      or seconds below a minute), counted by floor over the unit's span (360-day years),
      labelled singular for counts up to 1 and plural above; every unit but seconds counts at
      least 1. */
  lemma RelativeShape(s: nat, lang: Language)
    ensures var r := FormatRelative(s, lang);
            r.Success? ==>
              && r.value.Relative?
              && r.value.ago == Table(lang).ago
              && r.value.part.unit == CoarsestUnit(s)
              && r.value.part.count == s / Span(CoarsestUnit(s))
              && r.value.part.name == LongLabel(lang, r.value.part.unit, r.value.part.count)
              && (r.value.part.unit != Seconds ==> r.value.part.count >= 1)
  {
    var u := CoarsestUnit(s);
    var count := s / Span(u);
    RelativeIsPhrased(s, lang);
    PhrasedShape(Table(lang), count, u, PluralKey(u), Key(u));
    var r := FormatRelative(s, lang);
    assert "hoursa" !in Table(lang).names;
    if r.Success? {
      assert count > 1 ==> PluralKey(u) == Key(u);
      var l := LongLabel(lang, u, count);
      assert r.value.part.name == l;
      if u != Seconds {
        assert s >= Span(u);
      }
    }
  }

  /** The counts stay under the thresholds: under 60 seconds or minutes, 24 hours, 30 days,
      12 months. */
  lemma RelativeCountBounds(s: nat)
    ensures var u := CoarsestUnit(s);
            var c := s / Span(u);
            && (u == Seconds || u == Minutes ==> c < 60)
            && (u == Hours ==> c < 24)
            && (u == Days ==> c < 30)
            && (u == Months ==> c < 12)
  {
  }

  /** Relative mode throws exactly for 2 to 23 hours, reading the absent "hoursa"; one hour
      reads the singular "hours" form and succeeds. */
  lemma RelativeFailsForPluralHours(s: nat, lang: Language)
    ensures FormatRelative(s, lang).Failure? <==> 7200 <= s < 86400
    ensures FormatRelative(s, lang).Failure? ==> FormatRelative(s, lang).error == ReadOfUndefined("hoursa")
    ensures 3600 <= s < 7200 ==> FormatRelative(s, lang).Success?
  {
    NestedFloors(s);
    assert "hoursa" !in Table(lang).names;
  }
}
