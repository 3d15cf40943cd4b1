/** `humanReadableTime` (lirleur.ts:19-38): option defaults, unit normalisation, dispatch. */
module Lirleur {
  import opened Outcomes
  import opened Ladder
  import opened Locale
  import opened Segments
  import opened Exact
  import opened Relative
  import opened Rendering

  /** The declared unit of the duration: guessed, milliseconds, or seconds. */
  datatype InputUnit = Auto | Ms | S

  /** `HumanReadableTimeOptions`: every field may be left out. */
  datatype Options = Options(
    relative: Option<bool>,
    unit: Option<InputUnit>,
    locale: Option<Language>,
    precision: Option<int>,
    short: Option<bool>)

  /** The empty options object the source defaults to. */
  const NoOptions: Options := Options(None, None, None, None, None)

  /** The options once every omitted field has its default. */
  datatype Config = Config(relative: bool, unit: InputUnit, locale: Language, precision: int, short: bool)

  /** What `humanReadableTime` hands back: its string, a string in which an `undefined`
      abbreviation was interpolated (not modelled character by character), or an exception. */
  datatype Outcome = Text(text: string) | UndefinedLabel | Thrown(error: Error)

  function OrElse<T>(o: Option<T>, default: T): T {
    match o
    case Some(v) => v
    case None => default
  }

  /** The destructuring defaults of lirleur.ts:23-29: an option that is given is used as it is,
      and an omitted one falls back to absolute mode, auto unit, English, precision 2, long labels. */
  function Resolve(o: Options): (c: Config)
    ensures c.relative <==> o.relative == Some(true)
    ensures c.short <==> o.short == Some(true)
    ensures c.unit == Auto <==> o.unit.None? || o.unit == Some(Auto)
    ensures o.unit.Some? ==> c.unit == o.unit.value
    ensures c.locale == Fr <==> o.locale == Some(Fr)
    ensures o.precision.Some? ==> c.precision == o.precision.value
    ensures o.precision.None? ==> c.precision == 2
  {
    Config(
      OrElse(o.relative, false),
      OrElse(o.unit, Auto),
      OrElse(o.locale, En),
      OrElse(o.precision, 2),
      OrElse(o.short, false))
  }

  /** `totalSeconds`: milliseconds are floored to whole seconds, seconds pass unchanged, and
      `auto` reads the duration as milliseconds from 1000 up and as seconds below. */
  function ToSeconds(duration: nat, unit: InputUnit): (r: nat)
    ensures unit == S ==> r == duration
    ensures unit == Ms ==> r * 1000 <= duration < r * 1000 + 1000
    ensures unit == Auto && duration >= 1000 ==> r * 1000 <= duration < r * 1000 + 1000
    ensures unit == Auto && duration < 1000 ==> r == duration
  {
    if unit == Auto then (if duration >= 1000 then duration / 1000 else duration)
    else if unit == Ms then duration / 1000
    else duration
  }

  /** The phrase `humanReadableTime` formats, with the resolved locale, precision and short flag
      handed to the formatters. Relative mode is chosen exactly when asked for; it fails just for
      2 to 23 hours and otherwise writes the locale's `ago` and one part in the coarsest unit,
      counted by floor over its span and labelled in the locale. Exact mode never fails; it keeps
      the `precision` most significant non-zero units (only a years part when `precision <= 0`),
      labelled in the locale and the short flag, and never overshoots. */
  function Describe(duration: nat, options: Options): (r: Result<Phrase, Error>)
    ensures var c := Resolve(options);
            var s := ToSeconds(duration, c.unit);
            && (r.Failure? <==> c.relative && 7200 <= s < 86400)
            && (r.Failure? ==> r.error == ReadOfUndefined("hoursa"))
            && (r.Success? ==> (r.value.Relative? <==> c.relative))
            && (c.relative && r.Success? ==>
                 && r.value.ago == Table(c.locale).ago
                 && r.value.part.unit == CoarsestUnit(s)
                 && r.value.part.count == s / Span(CoarsestUnit(s))
                 && r.value.part.name == LongLabel(c.locale, r.value.part.unit, r.value.part.count))
            && (!c.relative ==>
                 r == Success(Exact(Prefix(Nonzero(s, Labels(c.locale, c.short), 0),
                                           if c.precision >= 1 then c.precision
                                           else if Count(s, Years) > 0 then 1 else 0),
                                    c.short)))
            && (r.Success? && r.value.Exact? ==> Total(r.value.parts) <= s)
  {
    var c := Resolve(options);
    var s := ToSeconds(duration, c.unit);
    if c.relative then
      RelativeFailsForPluralHours(s, c.locale);
      RelativeShape(s, c.locale);
      FormatRelative(s, c.locale)
    else
      ExactTruncates(s, c.locale, c.precision, c.short);
      Success(Exact(FormatExact(s, c.locale, c.precision, c.short), c.short))
  }

  /** `humanReadableTime(duration, options)`: it throws only in relative mode between 2 and 23
      hours, on the absent "hoursa" property; a relative text opens with the locale's `ago` word
      and a space; only exact short French text can hold an `undefined` abbreviation. */
  function HumanReadableTime(duration: nat, options: Options): (out: Outcome)
    ensures var c := Resolve(options);
            var s := ToSeconds(duration, c.unit);
            && (out.Thrown? <==> c.relative && 7200 <= s < 86400)
            && (out.Thrown? ==> out.error == ReadOfUndefined("hoursa"))
            && (c.relative && out.Text? ==> Table(c.locale).ago + " " <= out.text)
            && (out.UndefinedLabel? ==> !c.relative && c.short && c.locale == Fr)
  {
    var c := Resolve(options);
    var s := ToSeconds(duration, c.unit);
    RelativeRenders(s, c.locale);
    ExactRenders(s, c.locale, c.precision, c.short);
    Deliver(Describe(duration, options))
  }

  /** The outcome of a described phrase: its exception, its text, or an `undefined` label. */
  function Deliver(d: Result<Phrase, Error>): (out: Outcome)
    ensures out.Thrown? <==> d.Failure?
  {
    match d
    case Failure(e) => Thrown(e)
    case Success(p) =>
      match Render(p)
      case Some(text) => Text(text)
      case None => UndefinedLabel
  }

  /** Omitted options take the documented defaults; given ones are used as they are. */
  lemma ResolveDefaults(relative: bool, unit: InputUnit, locale: Language, precision: int, short: bool)
    ensures Resolve(NoOptions) == Config(false, Auto, En, 2, false)
    ensures Resolve(Options(Some(relative), Some(unit), Some(locale), Some(precision), Some(short)))
            == Config(relative, unit, locale, precision, short)
  {
  }

  /** The `auto` guess flips at 1000: 999 is read as seconds, 1000 as one second's worth of
      milliseconds. */
  lemma AutoThreshold()
    ensures ToSeconds(999, Auto) == 999
    ensures ToSeconds(1000, Auto) == 1
    ensures ToSeconds(1000, S) == 1000
  {
  }

  /** The call throws only in relative mode for 2 to 23 hours, and interpolates an undefined
      abbreviation only in exact French short mode when a years or days part is emitted; every
      other call yields text. */
  lemma OutcomeKinds(duration: nat, options: Options)
    ensures var c := Resolve(options);
            var s := ToSeconds(duration, c.unit);
            var out := HumanReadableTime(duration, options);
            && (out.Thrown? <==> c.relative && 7200 <= s < 86400)
            && (out.UndefinedLabel? <==>
                 && !c.relative && c.short && c.locale == Fr
                 && exists k :: 0 <= k < |FormatExact(s, Fr, c.precision, true)|
                      && (FormatExact(s, Fr, c.precision, true)[k].unit == Years
                          || FormatExact(s, Fr, c.precision, true)[k].unit == Days))
  {
    var c := Resolve(options);
    var s := ToSeconds(duration, c.unit);
    if c.relative {
      assert Describe(duration, options) == FormatRelative(s, c.locale);
      RelativeRenders(s, c.locale);
    } else {
      assert Describe(duration, options) == Success(Exact(FormatExact(s, c.locale, c.precision, c.short), c.short));
      ExactRenders(s, c.locale, c.precision, c.short);
    }
  }

  /** A relative phrase always renders: its label is a long form. */
  lemma RelativeRenders(s: nat, lang: Language)
    ensures FormatRelative(s, lang).Success? ==> Render(FormatRelative(s, lang).value).Some?
  {
    RelativeShape(s, lang);
    if FormatRelative(s, lang).Success? {
      RenderDefined(FormatRelative(s, lang).value);
    }
  }

  /** An exact phrase fails to render exactly when it is French, short, and holds a years or
      days part. */
  lemma ExactRenders(s: nat, lang: Language, precision: int, short: bool)
    ensures var r := FormatExact(s, lang, precision, short);
            Render(Exact(r, short)).None? <==>
              short && lang == Fr && exists k :: 0 <= k < |r| && (r[k].unit == Years || r[k].unit == Days)
  {
    var r := FormatExact(s, lang, precision, short);
    ExactUndefined(s, lang, precision, short);
    assert Render(Exact(r, short)).None? <==> exists k :: 0 <= k < |r| && r[k].name.Undefined?;
  }

  /** Which exact parts carry an undefined label: the French short years and days parts. */
  lemma ExactUndefined(s: nat, lang: Language, precision: int, short: bool)
    ensures var r := FormatExact(s, lang, precision, short);
            forall k :: 0 <= k < |r| ==>
              (r[k].name.Undefined? <==> short && lang == Fr && (r[k].unit == Years || r[k].unit == Days))
  {
    var r := FormatExact(s, lang, precision, short);
    ExactShape(s, lang, precision, short);
    forall k | 0 <= k < |r|
      ensures r[k].name.Undefined? <==> short && lang == Fr && (r[k].unit == Years || r[k].unit == Days)
    {
      ShortLabels(lang, r[k].unit);
    }
  }

  /** Exact English short mode always yields text, and cutting it at spaces gives back the parts:
      each the count's numeral directly followed by the unit's initial. */
  lemma ShortEnglishTokens(duration: nat, options: Options)
    requires var c := Resolve(options);
             !c.relative && c.short && c.locale == En
    ensures var c := Resolve(options);
            var r := FormatExact(ToSeconds(duration, c.unit), c.locale, c.precision, true);
            && HumanReadableTime(duration, options).Text?
            && (r != [] ==>
                 var tokens := Split(HumanReadableTime(duration, options).text);
                 && |tokens| == |r|
                 && forall k :: 0 <= k < |r| ==> tokens[k] == Decimal.Show(r[k].count) + [Initial(r[k].unit)])
  {
    var c := Resolve(options);
    var s := ToSeconds(duration, c.unit);
    var r := FormatExact(s, c.locale, c.precision, true);
    assert Describe(duration, options) == Success(Exact(r, true));
    ShortEnglishParts(r, s, c.locale, c.precision);
    RenderDefined(Exact(r, true));
    if r != [] {
      ShortTokens(r);
    }
  }

  /** In English short mode every part is labelled by its unit's initial letter. */
  lemma ShortEnglishParts(r: seq<Segment>, s: nat, lang: Language, precision: int)
    requires lang == En && r == FormatExact(s, lang, precision, true)
    ensures forall k :: 0 <= k < |r| ==> r[k].name == Word([Initial(r[k].unit)]) && ' ' !in r[k].name.text
  {
    ShortParts(s, lang, precision);
    forall k | 0 <= k < |r|
      ensures r[k].name == Word([Initial(r[k].unit)])
      ensures ' ' !in r[k].name.text
    {
      EnglishShort(r[k].unit);
    }
  }

  /** Exact long mode, the default, always yields text, and cutting it at spaces gives each
      part's numeral and then its long label in the locale, part after part. */
  lemma LongTexts(duration: nat, options: Options)
    requires var c := Resolve(options);
             !c.relative && !c.short
    ensures var c := Resolve(options);
            var r := FormatExact(ToSeconds(duration, c.unit), c.locale, c.precision, false);
            && HumanReadableTime(duration, options).Text?
            && (r != [] ==>
                 var tokens := Split(HumanReadableTime(duration, options).text);
                 && |tokens| == 2 * |r|
                 && forall k :: 0 <= k < |r| ==>
                      && tokens[2 * k] == Decimal.Show(r[k].count)
                      && tokens[2 * k + 1] == LongLabel(c.locale, r[k].unit, r[k].count).text)
  {
    var c := Resolve(options);
    var s := ToSeconds(duration, c.unit);
    var r := FormatExact(s, c.locale, c.precision, false);
    assert Describe(duration, options) == Success(Exact(r, false));
    LongParts(r, s, c.locale, c.precision);
    if r != [] {
      LongTokens(r);
    }
  }

  /** In long mode every part carries the locale's form for its unit and count, a single word. */
  lemma LongParts(r: seq<Segment>, s: nat, lang: Language, precision: int)
    requires r == FormatExact(s, lang, precision, false)
    ensures forall k :: 0 <= k < |r| ==>
              r[k].name == LongLabel(lang, r[k].unit, r[k].count) && ' ' !in r[k].name.text
  {
    ExactShape(s, lang, precision, false);
    forall k | 0 <= k < |r|
      ensures ' ' !in r[k].name.text
    {
      LongLabelIsOneWord(lang, r[k].unit, r[k].count);
    }
  }

  /** In short mode every part carries its unit's abbreviation, whatever the count. */
  lemma ShortParts(s: nat, lang: Language, precision: int)
    ensures var r := FormatExact(s, lang, precision, true);
            forall k :: 0 <= k < |r| ==> r[k].name == ShortLabel(lang, r[k].unit)
  {
    ExactShape(s, lang, precision, true);
  }

  /** In exact mode a duration of no whole seconds renders as the empty string. */
  lemma ZeroIsEmpty(duration: nat, options: Options)
    requires var c := Resolve(options);
             !c.relative && ToSeconds(duration, c.unit) == 0
    ensures HumanReadableTime(duration, options) == Text("")
  {
    var c := Resolve(options);
    ExactEmpty(0, c.locale, c.precision, c.short);
    assert Describe(duration, options) == Success(Exact([], c.short));
    assert Texts([], c.short) == Some([]);
  }

  // Worked examples. Each takes its input through `requires d == …` rather than as a literal
  // argument: with literals in the goal the verifier unfolds the locale table, the greedy counts
  // and the decimal numerals all at once. Each example instead goes in three steps: the counts
  // (`CountsOf…`), the parts the formatter writes (`…Parts`), and the rendered text (`…Text`).

  /** 3661 seconds in English long mode with the default precision 2: "1 hour 1 minute". */
  lemma HourAndMinute(d: nat, o: Options)
    requires d == 3661 && o == Options(None, Some(S), None, None, None)
    ensures HumanReadableTime(d, o) == Text("1 hour 1 minute")
  {
    var parts := [Segment(1, Hours, Word("hour")), Segment(1, Minutes, Word("minute"))];
    HourAndMinuteParts(d);
    assert Describe(d, o) == Success(Exact(parts, false));
    HourAndMinuteText(parts);
  }

  lemma HourAndMinuteText(parts: seq<Segment>)
    requires parts == [Segment(1, Hours, Word("hour")), Segment(1, Minutes, Word("minute"))]
    ensures Render(Exact(parts, false)) == Some("1 hour 1 minute")
  {
    assert Decimal.Show(1) == "1";
    assert Decimal.Show(1) + " " + "hour" == "1 hour";
    assert Decimal.Show(1) + " " + "minute" == "1 minute";
    assert SegmentText(parts[0], false) == Some("1 hour");
    assert SegmentText(parts[1], false) == Some("1 minute");
    assert parts[0].name.Word? && parts[1].name.Word?;
    var texts := Texts(parts, false).value;
    assert texts == ["1 hour", "1 minute"];
    assert Join(["1 hour", "1 minute"]) == "1 hour 1 minute";
  }

  lemma HourAndMinuteParts(s: nat)
    requires s == 3661
    ensures FormatExact(s, En, 2, false) == [Segment(1, Hours, Word("hour")), Segment(1, Minutes, Word("minute"))]
  {
    var lbl := Labels(En, false);
    NonzeroUnrolled(s, lbl);
    CountsOf3661(s);
    var hour := Segment(1, Hours, lbl(Hours, 1));
    var minute := Segment(1, Minutes, lbl(Minutes, 1));
    var second := Segment(1, Seconds, lbl(Seconds, 1));
    assert Nonzero(s, lbl, 0) == [hour, minute, second];
    EnglishSingulars();
  }

  lemma CountsOf3661(s: nat)
    requires s == 3661
    ensures Count(s, Years) == 0 && Count(s, Months) == 0 && Count(s, Days) == 0
    ensures Count(s, Hours) == 1 && Count(s, Minutes) == 1 && Count(s, Seconds) == 1
  {
  }

  lemma EnglishSingulars()
    ensures Labels(En, false)(Hours, 1) == Word("hour")
    ensures Labels(En, false)(Minutes, 1) == Word("minute")
  {
  }

  /** 90 seconds in English short mode: "1m 30s" -- the parts are joined by a space, only the
      count and its abbreviation are written together. */
  lemma MinuteAndSecondsShort(d: nat, o: Options)
    requires d == 90 && o == Options(None, Some(S), None, None, Some(true))
    ensures HumanReadableTime(d, o) == Text("1m 30s")
  {
    var parts := [Segment(1, Minutes, Word("m")), Segment(30, Seconds, Word("s"))];
    MinuteAndSecondsParts(d);
    assert Describe(d, o) == Success(Exact(parts, true));
    MinuteAndSecondsText(parts);
  }

  lemma MinuteAndSecondsParts(s: nat)
    requires s == 90
    ensures FormatExact(s, En, 2, true) == [Segment(1, Minutes, Word("m")), Segment(30, Seconds, Word("s"))]
  {
    var lbl := Labels(En, true);
    NonzeroUnrolled(s, lbl);
    CountsOf90(s);
    ShortLabels(En, Minutes);
    ShortLabels(En, Seconds);
    var minute := Segment(1, Minutes, lbl(Minutes, 1));
    var seconds := Segment(30, Seconds, lbl(Seconds, 30));
    assert Nonzero(s, lbl, 0) == [minute, seconds];
  }

  lemma CountsOf90(s: nat)
    requires s == 90
    ensures Count(s, Years) == 0 && Count(s, Months) == 0 && Count(s, Days) == 0
    ensures Count(s, Hours) == 0 && Count(s, Minutes) == 1 && Count(s, Seconds) == 30
  {
  }

  lemma MinuteAndSecondsText(parts: seq<Segment>)
    requires parts == [Segment(1, Minutes, Word("m")), Segment(30, Seconds, Word("s"))]
    ensures Render(Exact(parts, true)) == Some("1m 30s")
  {
    assert Decimal.Show(1) == "1" && Decimal.Show(30) == "30";
    assert Decimal.Show(1) + "" + "m" == "1m";
    assert Decimal.Show(30) + "" + "s" == "30s";
    assert parts[0].name.Word? && parts[1].name.Word?;
    var texts := Texts(parts, true).value;
    assert texts == ["1m", "30s"];
    assert Join(["1m", "30s"]) == "1m 30s";
  }

  /** 5000 with no options: read as milliseconds, 5 seconds, "5 seconds". */
  lemma FiveSecondsAuto(d: nat, o: Options)
    requires d == 5000 && o == NoOptions
    ensures HumanReadableTime(d, o) == Text("5 seconds")
  {
    assert ToSeconds(d, Auto) == 5;
    var parts := [Segment(5, Seconds, Word("seconds"))];
    FiveSecondsParts(5);
    assert Describe(d, o) == Success(Exact(parts, false));
    FiveSecondsText(parts);
  }

  lemma FiveSecondsText(parts: seq<Segment>)
    requires parts == [Segment(5, Seconds, Word("seconds"))]
    ensures Render(Exact(parts, false)) == Some("5 seconds")
  {
    assert Decimal.Show(5) == "5";
    assert Decimal.Show(5) + " " + "seconds" == "5 seconds";
    SingleText(parts, 5, "seconds", "5 seconds");
  }

  lemma FiveSecondsParts(s: nat)
    requires s == 5
    ensures FormatExact(s, En, 2, false) == [Segment(5, Seconds, Word("seconds"))]
  {
    CountsOf5(s);
    OnlyUnit(s, Labels(En, false), Seconds);
    assert Labels(En, false)(Seconds, 5) == Word("seconds");
  }

  lemma CountsOf5(s: nat)
    requires s == 5
    ensures forall v :: v != Seconds ==> Count(s, v) == 0
    ensures Count(s, Seconds) == 5
  {
    assert forall v :: v != Seconds ==> Held(s, v) == s;
  }

  /** 7200 seconds in French: "2 heures". */
  lemma TwoHoursFrench(d: nat, o: Options)
    requires d == 7200 && o == Options(None, Some(S), Some(Fr), None, None)
    ensures HumanReadableTime(d, o) == Text("2 heures")
  {
    var parts := [Segment(2, Hours, Word("heures"))];
    TwoHoursParts(d);
    assert Describe(d, o) == Success(Exact(parts, false));
    TwoHoursText(parts);
  }

  lemma TwoHoursText(parts: seq<Segment>)
    requires parts == [Segment(2, Hours, Word("heures"))]
    ensures Render(Exact(parts, false)) == Some("2 heures")
  {
    assert Decimal.Show(2) == "2";
    assert Decimal.Show(2) + " " + "heures" == "2 heures";
    SingleText(parts, 2, "heures", "2 heures");
  }

  lemma TwoHoursParts(s: nat)
    requires s == 7200
    ensures FormatExact(s, Fr, 2, false) == [Segment(2, Hours, Word("heures"))]
  {
    CountsOf7200(s);
    OnlyUnit(s, Labels(Fr, false), Hours);
    assert Labels(Fr, false)(Hours, 2) == Word("heures");
  }

  lemma CountsOf7200(s: nat)
    requires s == 7200
    ensures forall v :: v != Hours ==> Count(s, v) == 0
    ensures Count(s, Hours) == 2
  {
  }

  /** When a single unit has a non-zero count the decomposition is that one part. */
  lemma OnlyUnit(s: nat, lbl: Labeller, u: TimeUnit)
    requires forall v :: v != u ==> Count(s, v) == 0
    requires Count(s, u) > 0
    ensures Nonzero(s, lbl, 0) == [Segment(Count(s, u), u, lbl(u, Count(s, u)))]
  {
    NonzeroUnrolled(s, lbl);
    var only := [Segment(Count(s, u), u, lbl(u, Count(s, u)))];
    assert Piece(s, lbl, u) == only;
    assert forall v :: v != u ==> Piece(s, lbl, v) == [];
    match u
    case Years =>
    case Months =>
    case Days =>
    case Hours =>
    case Minutes =>
    case Seconds =>
  }

  /** A lone long part renders as its count, a space and its label. */
  lemma SingleText(parts: seq<Segment>, count: nat, word: string, text: string)
    requires |parts| == 1 && parts[0].count == count && parts[0].name == Word(word)
    requires text == Decimal.Show(count) + " " + word
    ensures Render(Exact(parts, false)) == Some(text)
  {
    var texts := Texts(parts, false).value;
    assert texts == [text];
  }

  /** 45 seconds in relative mode: "ago 45 seconds". */
  lemma SecondsAgo(d: nat, o: Options)
    requires d == 45 && o == Options(Some(true), Some(S), None, None, None)
    ensures HumanReadableTime(d, o) == Text("ago 45 seconds")
  {
    var p := Relative("ago", Segment(45, Seconds, Word("seconds")));
    assert Describe(d, o) == Success(p);
    assert Decimal.Show(45) == "45";
    assert "ago" + " " + (Decimal.Show(45) + " " + "seconds") == "ago 45 seconds";
  }

  /** French relative mode puts the locale's `ago` first and reads the French plural:
      "il y a 45 secondes". */
  lemma SecondsAgoFrench(d: nat, o: Options)
    requires d == 45 && o == Options(Some(true), Some(S), Some(Fr), None, None)
    ensures HumanReadableTime(d, o) == Text("il y a 45 secondes")
  {
    var p := Relative("il y a", Segment(45, Seconds, Word("secondes")));
    assert Describe(d, o) == Success(p);
    assert Render(p) == Some("il y a 45 secondes") by {
      assert Decimal.Show(45) == "45";
      assert "il y a" + " " + (Decimal.Show(45) + " " + "secondes") == "il y a 45 secondes";
    }
  }

  /** One hour in relative mode reads the singular and succeeds: "ago 1 hour". */
  lemma OneHourAgo(d: nat, o: Options)
    requires d == 3600 && o == Options(Some(true), Some(S), None, None, None)
    ensures HumanReadableTime(d, o) == Text("ago 1 hour")
  {
    var p := Relative("ago", Segment(1, Hours, Word("hour")));
    assert Describe(d, o) == Success(p);
    assert Decimal.Show(1) == "1";
    assert "ago" + " " + (Decimal.Show(1) + " " + "hour") == "ago 1 hour";
  }

  /** Two hours in relative mode throw on the absent "hoursa" property. */
  lemma TwoHoursAgoThrows(d: nat, o: Options)
    requires d == 7200 && o == Options(Some(true), Some(S), None, None, None)
    ensures HumanReadableTime(d, o) == Thrown(ReadOfUndefined("hoursa"))
  {
    RelativeFailsForPluralHours(d, En);
  }

  /** A day in French short mode has no abbreviation to interpolate. */
  lemma FrenchShortDayUndefined(d: nat, o: Options)
    requires d == 86400 && o == Options(None, Some(S), Some(Fr), None, Some(true))
    ensures HumanReadableTime(d, o) == UndefinedLabel
  {
    DayParts(d);
    assert Describe(d, o) == Success(Exact([Segment(1, Days, Undefined)], true));
  }

  lemma DayParts(s: nat)
    requires s == 86400
    ensures FormatExact(s, Fr, 2, true) == [Segment(1, Days, Undefined)]
  {
    CountsOfDay(s);
    OnlyUnit(s, Labels(Fr, true), Days);
    ShortLabels(Fr, Days);
  }

  lemma CountsOfDay(s: nat)
    requires s == 86400
    ensures forall v :: v != Days ==> Count(s, v) == 0
    ensures Count(s, Days) == 1
  {
  }

  /** With precision 0 only a years part can appear: one year and an hour give "1 year". */
  lemma PrecisionZeroYear(d: nat, o: Options)
    requires d == 31539600 && o == Options(None, Some(S), None, Some(0), None)
    ensures HumanReadableTime(d, o) == Text("1 year")
  {
    var parts := [Segment(1, Years, Word("year"))];
    YearParts(d);
    assert Describe(d, o) == Success(Exact(parts, false));
    YearText(parts);
  }

  lemma YearParts(s: nat)
    requires s == 31539600
    ensures FormatExact(s, En, 0, false) == [Segment(1, Years, Word("year"))]
  {
    var lbl := Labels(En, false);
    CountsOfYearAndHour(s);
    NonzeroCons(s, lbl, 0);
    assert lbl(Years, 1) == Word("year");
    assert Nonzero(s, lbl, 0)[0] == Segment(1, Years, Word("year"));
  }

  lemma CountsOfYearAndHour(s: nat)
    requires s == 31539600
    ensures Count(s, Years) == 1
  {
  }

  lemma YearText(parts: seq<Segment>)
    requires parts == [Segment(1, Years, Word("year"))]
    ensures Render(Exact(parts, false)) == Some("1 year")
  {
    assert Decimal.Show(1) == "1";
    assert Decimal.Show(1) + " " + "year" == "1 year";
    SingleText(parts, 1, "year", "1 year");
  }

  /** With precision 0 an hour alone renders as the empty string. */
  lemma PrecisionZeroHour(d: nat, o: Options)
    requires d == 3600 && o == Options(None, Some(S), None, Some(0), None)
    ensures HumanReadableTime(d, o) == Text("")
  {
    assert Count(d, Years) == 0;
    assert FormatExact(d, En, 0, false) == [];
    assert Describe(d, o) == Success(Exact([], false));
    assert Texts([], false) == Some([]);
  }
}
