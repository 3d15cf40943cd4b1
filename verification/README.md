# lirleur: human-readable durations, modelled in Dafny

`humanReadableTime(duration, options)` turns a duration into an English or French phrase. It
fills in the omitted options, reads the duration as seconds or milliseconds (or guesses which),
and then formats it in one of two ways:

- **exact** mode walks down a fixed ladder of units (years of 365 days, months of 30 days, days,
  hours, minutes, seconds). It takes the greedy count of every unit that is non-zero and stops
  once `precision` parts have been written. Parts are either `"<count> <word>"` with a singular or
  plural word, or, in short mode, `"<count><abbreviation>"`. They are joined by single spaces.
- **relative** mode goes up from seconds and takes the first unit whose count is under its
  threshold (60 s, 60 min, 24 h, 30 d, 12 months, otherwise years of 360 days). That is the
  coarsest unit with a count of at least 1, or seconds below a minute. It writes
  `"<ago> <count> <word>"`.

The model follows the structure of the code:

| module | file | what it holds |
|---|---|---|
| `Outcomes` | outcomes.dfy | `Option` and `Result` |
| `Ladder` | ladder.dfy | the six units, their property names and their sizes in seconds |
| `Locale` | locale.dfy | the `localeStrings` table, property reads that may hit a missing key, long and short labels |
| `Segments` | segments.dfy | a part (count, unit, label) and a phrase (exact parts or one relative part) |
| `Exact` | exact.dfy | the loop of `formatExactTime`, a closed-form reference decomposition, and the proof that they agree |
| `Relative` | relative.dfy | the threshold cascade of `formatRelativeTime` and its closed form |
| `Decimal` | decimal.dfy | the decimal numeral that template interpolation writes for a count |
| `Rendering` | render.dfy | turning a phrase into its string (interpolation and `join(' ')`), and splitting it back at spaces |
| `Lirleur` | lirleur.dfy | options, defaults, unit normalisation, dispatch, the overall outcome, and worked examples |
| `Arith` | arith.dfy | facts about Euclidean division used by the two formatters |

Formatting is split into two stages. The first builds a `Phrase`: the counts, units and labels.
The second renders that phrase as text. Most properties are stated on the phrase. For the
rendering, four things are proved. A phrase renders exactly when all its labels are defined. A
relative text opens with the `ago` word and a space. In both exact modes the text cut at spaces
gives the parts back: numeral and label alternately in long mode (`Rendering.LongTokens`,
`Lirleur.LongTexts`), numeral and abbreviation fused in short mode (`Rendering.ShortTokens`).

The outcome of a call is one of three things:

- `Text(s)`, the returned string.
- `Thrown(ReadOfUndefined(key))`, when the code indexes a property the locale table does not have.
- `UndefinedLabel`, when short mode interpolates an abbreviation the locale lacks. In the code this
  writes the word `undefined` into the string.

Behaviour as written, kept in the model:

- **Relative mode throws for 2 to 23 hours.** The hours branch reads `strings.hoursa[1]`
  (lirleur.ts:124). No locale has that property, so every relative duration from 7200 to 86399
  seconds throws. One hour reads `strings.hours[0]` and succeeds. `Relative.RelativeFailsForPluralHours`
  and `Lirleur.OutcomeKinds` state this exactly.
- **Short mode looks abbreviations up by one letter.** The key is `unit.label[0]`
  (lirleur.ts:92), so months are abbreviated `m`, the same as minutes, and the `mo` entry is never
  read. French has no `y` or `d` entry, so French short years and days interpolate `undefined`.
- **Short parts are still separated by spaces.** Only the count and its abbreviation are written
  together; the parts themselves are joined with a space (lirleur.ts:101), so 90 seconds in short
  mode is `"1m 30s"`.
- **A precision of zero or less still writes a years part.** The cap is tested after each step
  (lirleur.ts:98), so at most one part, the years part, is written.
- **Exact mode can write "12 months".** A 365-day year holds twelve 30-day months with 5 days to
  spare, so from 360 to 364 days exact mode writes `12 months` (`Exact.CountBounds`).

## Model

| member | source | states |
|---|---|---|
| Lirleur.HumanReadableTime | lirleur.ts:19-38 | a call throws exactly in relative mode for 2 to 23 hours of resolved seconds, and then on reading "hoursa"; a relative text opens with the locale's `ago` word and a space; an `undefined` abbreviation can only appear in exact, short, French mode (`OutcomeKinds` gives the exact condition) |
| Lirleur.Resolve | lirleur.ts:23-29 | each given option is used as it is; an omitted one falls back to absolute mode, auto unit, English, precision 2 and long labels |
| Lirleur.ResolveDefaults | lirleur.ts:23-29 | omitted options become relative false, unit auto, locale en, precision 2, short false; given options are used unchanged |
| Lirleur.ToSeconds | lirleur.ts:31-33 | seconds pass unchanged; milliseconds become the whole seconds `r` with `r*1000 <= d < r*1000+1000`; auto treats 1000 and up as milliseconds and anything below as seconds |
| Lirleur.AutoThreshold | lirleur.ts:32 | the auto guess switches at 1000: 999 stays 999 seconds, 1000 becomes 1 second, and 1000 given in seconds stays 1000 |
| Lirleur.Describe | lirleur.ts:35-37 | the resolved locale, precision and short flag reach the formatters. Relative mode is chosen exactly when asked for. It fails exactly for 7200 ≤ s < 86400, on "hoursa"; otherwise it writes the locale's `ago` and one part in the coarsest unit, counted as `s / span` and labelled in the locale. Exact mode never fails: it keeps the first `precision` parts of the reference decomposition in the locale and short flag, only a years part when precision ≤ 0, and never adds up to more than the input |
| Lirleur.OutcomeKinds | lirleur.ts:19-38 | a call throws exactly in relative mode for 2 to 23 hours; it interpolates an undefined abbreviation exactly in exact, short, French mode when a years or days part is written; every other call returns text |
| Lirleur.ExactRenders | lirleur.ts:91-96 | an exact phrase fails to render exactly when it is short, French, and holds a years or days part |
| Lirleur.RelativeRenders | lirleur.ts:110-142 | every relative phrase that is built also renders |
| Lirleur.LongTexts | lirleur.ts:87-101 | exact long mode, the default, always returns text; cut at spaces it gives each part's numeral followed by its long label in the locale |
| Lirleur.LongParts | lirleur.ts:93-95 | in long mode each part's label is the locale's form for its unit and count, and holds no space |
| Lirleur.ShortParts | lirleur.ts:91-92 | in short mode each part's label is its unit's abbreviation, whatever the count |
| Lirleur.ShortEnglishParts | lirleur.ts:52 | in English short mode each part's label is its unit's initial letter and holds no space |
| Lirleur.ShortEnglishTokens | lirleur.ts:91-101 | English short mode always returns text; splitting it at spaces gives one token per part, the count's numeral followed directly by the unit's initial |
| Lirleur.ZeroIsEmpty | lirleur.ts:85-101 | in exact mode, a duration of no whole seconds returns the empty string, whatever the locale, precision or short flag |
| Lirleur.HourAndMinute | lirleur.ts:19-38 | 3661 given in seconds, with default options otherwise, gives "1 hour 1 minute" |
| Lirleur.MinuteAndSecondsShort | lirleur.ts:91-101 | 90 seconds in short mode gives "1m 30s" |
| Lirleur.FiveSecondsAuto | lirleur.ts:31-33 | 5000 with no options is read as milliseconds and gives "5 seconds" |
| Lirleur.TwoHoursFrench | lirleur.ts:54-63 | 7200 seconds in French gives "2 heures" |
| Lirleur.SecondsAgo | lirleur.ts:110-113 | 45 seconds in relative mode gives "ago 45 seconds" |
| Lirleur.SecondsAgoFrench | lirleur.ts:54-63 | 45 seconds in French relative mode gives "il y a 45 secondes" |
| Lirleur.OneHourAgo | lirleur.ts:121-125 | 3600 seconds in relative mode gives "ago 1 hour" |
| Lirleur.TwoHoursAgoThrows | lirleur.ts:121-125 | 7200 seconds in relative mode throws on reading "hoursa" |
| Lirleur.FrenchShortDayUndefined | lirleur.ts:62 | one day in French short mode interpolates an undefined abbreviation |
| Lirleur.PrecisionZeroYear | lirleur.ts:98 | with precision 0, one year and one hour gives "1 year" |
| Lirleur.PrecisionZeroHour | lirleur.ts:98 | with precision 0, one hour gives the empty string |
| Locale.Table | lirleur.ts:43-64 | both bundles hold a long-form property for every unit and none named "hoursa"; the `ago` word is non-empty and does not end in a space |
| Locale.LongLabel | lirleur.ts:93-95 | the long label is always defined and is the form the bundle holds for the unit: plural exactly when the count exceeds 1 |
| Locale.LongLabelIsOneWord | lirleur.ts:45-60 | no singular or plural form in either bundle holds a space |
| Locale.Pluralisation | lirleur.ts:44-63 | counts 0 and 1 take the singular and higher counts the plural; the plural is the singular plus "s" except French "mois", which is its own plural |
| Locale.ShortLabels | lirleur.ts:92 | a defined abbreviation is the unit's initial; English defines one for every unit; French lacks exactly years and days; "mo" is never produced; English months and minutes share "m" |
| Locale.EnglishShort | lirleur.ts:52 | English abbreviates every unit by its initial, which is not a space |
| Locale.FrenchShort | lirleur.ts:62 | French has no abbreviation for years or days and abbreviates every other unit by its initial |
| Ladder.InitialsCollide | lirleur.ts:92 | two units look up the same abbreviation key (the first letter of the property name) exactly when they are the same unit or are months and minutes |
| Ladder.LadderDescends | lirleur.ts:76-83 | the ladder's order is strictly decreasing size: a unit comes before another exactly when it is larger |
| Exact.FormatExact | lirleur.ts:69-102 | for precision ≥ 1 the loop writes the first `precision` parts of the reference decomposition (the non-zero greedy counts from years down); for precision ≤ 0 it writes at most the years part |
| Exact.WalkAppends | lirleur.ts:87-99 | the loop only appends to the parts it has, at most one part per remaining unit, each with a positive count and its label, and never goes past a cap it starts under |
| Exact.HeldStep | lirleur.ts:88-90 | one loop step leaves exactly the closed-form remainder the next unit starts from |
| Exact.WalkTakesPrefix | lirleur.ts:87-99 | the loop, started at any ladder position with room under the cap, appends exactly the first parts of the rest of the reference decomposition |
| Exact.NonzeroShape | lirleur.ts:87-97 | the reference decomposition has at most one part per unit, each with a positive greedy count and the label the loop gives it, in ladder order |
| Exact.TotalNonzero | lirleur.ts:87-97 | the reference decomposition adds up to exactly the seconds held when it starts |
| Exact.PrefixRemainder | lirleur.ts:87-99 | cutting the decomposition after a part leaves exactly the seconds held below that part's unit |
| Exact.ExactShape | lirleur.ts:87-99 | at most `precision` parts (at most a years part when precision ≤ 0), each with a positive greedy count and its locale label, sizes strictly decreasing |
| Exact.ExactPrefix | lirleur.ts:98 | the output is a prefix of the reference decomposition, of length at most `precision` (at most 1 when precision ≤ 0) |
| Exact.ExactEmpty | lirleur.ts:85-101 | zero seconds write nothing; with precision ≥ 1 nothing is written exactly when the input is zero |
| Exact.CountBounds | lirleur.ts:76-90 | below years the greedy counts are at most 12 months, under 30 days, 24 hours, 60 minutes and 60 seconds; 12 months is reached |
| Exact.ExactSumsUncapped | lirleur.ts:87-99 | when the cap is not reached, in particular whenever precision ≥ 6, the parts add up to the input exactly |
| Exact.ExactTruncates | lirleur.ts:88-98 | when parts are written they never exceed the input, and they fall short of it by less than one of the last unit written |
| Relative.FormatRelative | lirleur.ts:107-143 | a relative phrase either fails on reading "hoursa" or carries the locale's `ago` word and a defined label (`RelativeIsPhrased` and `RelativeShape` give the unit and count) |
| Relative.NestedFloors | lirleur.ts:115-139 | the nested floors of the cascade equal single floors by 3600, 86400, 2592000 and 31104000 |
| Relative.RelativeIsPhrased | lirleur.ts:107-143 | the cascade is one phrase in the first unit, from seconds up, whose count is under its threshold (the coarsest unit with a count of at least 1, or seconds below a minute), counted by floor over that unit's span, with the plural read from "hoursa" for hours |
| Relative.PhrasedShape | lirleur.ts:110-113 | a relative phrase that reads successfully carries the locale's `ago`, the count and unit given, and the form read for that count |
| Relative.RelativeShape | lirleur.ts:110-142 | a successful relative phrase carries the locale's `ago` and one part in the coarsest unit, with count `s / span`, the long label for that count, and a count of at least 1 unless the unit is seconds |
| Relative.Span | lirleur.ts:133-139 | relative mode sizes units like the ladder, except that a year is twelve 30-day months, shorter than the ladder's 365-day year |
| Relative.RelativeCountBounds | lirleur.ts:110-139 | a relative count stays under its unit's threshold: under 60 seconds or minutes, 24 hours, 30 days, 12 months |
| Relative.RelativeFailsForPluralHours | lirleur.ts:121-125 | relative mode fails exactly for 7200 ≤ s < 86400, with the error of reading "hoursa"; 3600 ≤ s < 7200 succeeds |
| Decimal.Show | lirleur.ts:96 | a count is written as a non-empty string of decimal digits with no leading zero |
| Decimal.ValueOfShow | lirleur.ts:96 | reading a written count back gives the count |
| Decimal.ShowOfValue | lirleur.ts:96 | a digit string without a leading zero is exactly how its value is written |
| Rendering.Texts | lirleur.ts:96 | the parts render exactly when every label is defined, one text per part, each the numeral, a space unless short, and the label |
| Rendering.Join | lirleur.ts:101 | the first word opens the text, followed by a space when more words come; `SplitJoin` shows that splitting at spaces undoes it |
| Rendering.SplitJoin | lirleur.ts:101 | joining space-free words with single spaces and splitting at spaces gives the words back |
| Rendering.Render | lirleur.ts:96-101 | a phrase renders exactly when all of its labels are defined; a relative text opens with the `ago` word and a space; an exact phrase with no parts renders as the empty string |
| Rendering.RenderDefined | lirleur.ts:96-101 | a phrase renders exactly when all of its labels are defined |
| Rendering.Flat | lirleur.ts:96 | the words long-mode text is made of: for each part, in order, its numeral and then its label |
| Rendering.LongTokens | lirleur.ts:93-101 | long-mode text of parts whose labels hold no space, cut at spaces, gives each part's numeral and then its label, part after part |
| Rendering.ShortTokens | lirleur.ts:96-101 | short-mode text split at spaces gives one token per part, the count's numeral followed directly by its abbreviation |

## Left out

- JavaScript numbers: the duration and the computed seconds are natural numbers. Fractional,
  negative, `NaN` and infinite durations are not modelled, and neither is the loss of precision
  above 2^53.
- Fractional precision such as 1.5 is not modelled. Precision is a mathematical integer; the
  loop compares the part count with it as the code does.
- The literal text of an `undefined` interpolation. A French short years or days label gives the
  outcome `UndefinedLabel` instead of the string containing `undefined`.
- A missing property read in exact long mode is not modelled as an error. Every unit's property
  exists in both locales, so `Locale.LongLabel` always reads a defined form.
- Locales other than `en` and `fr`: `Language` has exactly these two values, matching the type.
- The TypeScript declarations are not modelled: the `Language` union and the
  `HumanReadableTimeOptions` interface (lirleur.ts:3-14) become the `Language`, `InputUnit` and
  `Options` datatypes, and the named export of `humanReadableTime` (lirleur.ts:19) has no
  counterpart.
