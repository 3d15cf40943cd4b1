/** The static `localeStrings` table and the label reads both formatters make (lirleur.ts:43-64). */
module Locale {
  import opened Outcomes
  import opened Ladder

  datatype Language = En | Fr

  /** A `[singular, plural]` pair of a bundle. */
  datatype Forms = Forms(singular: string, plural: string)

  /** One bundle: unit forms by property name, the `ago` token, and abbreviations by key. */
  datatype Bundle = Bundle(names: map<string, Forms>, ago: string, short: map<string, string>)

  /** A label as read from a bundle: a word, or `undefined` when the key is absent. */
  datatype Label = Word(text: string) | Undefined

  /** The exception JavaScript raises when a formatter indexes an absent property. */
  datatype Error = ReadOfUndefined(property: string)

  function Table(lang: Language): (b: Bundle)
    ensures forall u: TimeUnit :: Key(u) in b.names
    ensures "hoursa" !in b.names
    ensures b.ago != "" && ' ' !in b.ago[|b.ago| - 1..]
  {
    match lang
    case En =>
      Bundle(
        map[
          "seconds" := Forms("second", "seconds"),
          "minutes" := Forms("minute", "minutes"),
          "hours" := Forms("hour", "hours"),
          "days" := Forms("day", "days"),
          "months" := Forms("month", "months"),
          "years" := Forms("year", "years")],
        "ago",
        map["s" := "s", "m" := "m", "h" := "h", "d" := "d", "mo" := "mo", "y" := "y"])
    case Fr =>
      Bundle(
        map[
          "seconds" := Forms("seconde", "secondes"),
          "minutes" := Forms("minute", "minutes"),
          "hours" := Forms("heure", "heures"),
          "days" := Forms("jour", "jours"),
          "months" := Forms("mois", "mois"),
          "years" := Forms("an", "ans")],
        "il y a",
        map["s" := "s", "m" := "m", "h" := "h", "j" := "j", "mo" := "mo", "a" := "a"])
  }

  /** `b[key][plural ? 1 : 0]`: indexing a property the bundle lacks throws. */
  function Read(b: Bundle, key: string, plural: bool): Result<string, Error> {
    if key !in b.names then Failure(ReadOfUndefined(key))
    else if plural then Success(b.names[key].plural)
    else Success(b.names[key].singular)
  }

  /** The long label for `count` of `u`: plural exactly when `count > 1`. */
  function LongLabel(lang: Language, u: TimeUnit, count: nat): (l: Label)
    ensures l.Word? && Read(Table(lang), Key(u), count > 1) == Success(l.text)
  {
    var forms := Table(lang).names[Key(u)];
    Word(if count > 1 then forms.plural else forms.singular)
  }

  /** The short label: the abbreviation stored under the first letter of the unit's property name. */
  function ShortLabel(lang: Language, u: TimeUnit): Label {
    var initial := [Initial(u)];
    var short := Table(lang).short;
    if initial in short then Word(short[initial]) else Undefined
  }

  /** Count 1 (and 0) reads the singular, any count above 1 the plural; in English the plural adds
      an "s", in French too except for "mois", which is its own plural. */
  lemma Pluralisation(lang: Language, u: TimeUnit, count: nat)
    ensures count <= 1 ==> LongLabel(lang, u, count) == Word(Table(lang).names[Key(u)].singular)
    ensures count > 1 ==> LongLabel(lang, u, count) == Word(Table(lang).names[Key(u)].plural)
    ensures lang == En || u != Months ==>
      LongLabel(lang, u, count).text == LongLabel(lang, u, 1).text + (if count > 1 then "s" else "")
    ensures LongLabel(Fr, Months, count) == Word("mois")
  {
  }

  /** No long form in either bundle holds a space, so a long part's label is a single word. */
  lemma LongLabelIsOneWord(lang: Language, u: TimeUnit, count: nat)
    ensures ' ' !in LongLabel(lang, u, count).text
  {
    var forms := Table(lang).names[Key(u)];
    assert ' ' !in forms.singular && ' ' !in forms.plural by {
      FormsAreWords(lang, u);
    }
  }

  lemma FormsAreWords(lang: Language, u: TimeUnit)
    ensures var forms := Table(lang).names[Key(u)];
            ' ' !in forms.singular && ' ' !in forms.plural
  {
    match u
    case Years =>
    case Months =>
    case Days =>
    case Hours =>
    case Minutes =>
    case Seconds =>
  }

  /** A defined abbreviation is always the unit's initial; English defines one for every unit,
      French none for years and days, and "mo" is never reached because only one letter is looked up. */
  lemma ShortLabels(lang: Language, u: TimeUnit)
    ensures ShortLabel(lang, u).Word? ==> ShortLabel(lang, u).text == [Initial(u)]
    ensures ShortLabel(En, u).Word?
    ensures ShortLabel(Fr, u).Undefined? <==> u == Years || u == Days
    ensures ShortLabel(lang, u) != Word("mo")
    ensures ShortLabel(En, Months) == ShortLabel(En, Minutes) == Word("m")
  {
    EnglishShort(u);
    FrenchShort(u);
    EnglishShort(Minutes);
    EnglishShort(Months);
  }

  lemma EnglishShort(u: TimeUnit)
    ensures ShortLabel(En, u) == Word([Initial(u)])
    ensures ' ' !in ShortLabel(En, u).text
  {
    assert [Initial(u)] in Table(En).short;
  }

  lemma FrenchShort(u: TimeUnit)
    ensures u == Years || u == Days ==> ShortLabel(Fr, u) == Undefined
    ensures u != Years && u != Days ==> ShortLabel(Fr, u) == Word([Initial(u)])
  {
    match u
    case Years =>
      assert "y" !in Table(Fr).short;
    case Days =>
      assert "d" !in Table(Fr).short;
    case _ =>
      assert [Initial(u)] in Table(Fr).short;
  }
}
