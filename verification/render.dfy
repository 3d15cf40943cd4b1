/** Turning a phrase into the string `humanReadableTime` returns: template literals for each
    part and `parts.join(' ')` (lirleur.ts:96, 101, 111-142). */
module Rendering {
  import opened Outcomes
  import opened Locale
  import opened Segments
  import opened Decimal

  /** One part's text: the count's numeral, a space unless in short mode, then the label; no
      text when the label is undefined. */
  function SegmentText(seg: Segment, short: bool): Option<string> {
    match seg.name
    case Undefined => None
    case Word(text) => Some(Show(seg.count) + (if short then "" else " ") + text)
  }

  /** The texts of all parts, in order, provided every label is defined. */
  function Texts(parts: seq<Segment>, short: bool): (r: Option<seq<string>>)
    ensures r.Some? <==> forall i :: 0 <= i < |parts| ==> parts[i].name.Word?
    ensures r.Some? ==> |r.value| == |parts|
    ensures r.Some? ==> forall i :: 0 <= i < |parts| ==> SegmentText(parts[i], short) == Some(r.value[i])
  {
    if parts == [] then Some([])
    else
      match (SegmentText(parts[0], short), Texts(parts[1..], short))
      case (Some(text), Some(texts)) => Some([text] + texts)
      case _ => None
  }

  /** `words.join(' ')`: the first word opens the text, followed by a space when more words come.
      `SplitJoin` shows that `Split` undoes it. */
  function Join(words: seq<string>): (r: string)
    ensures |words| == 0 ==> r == ""
    ensures |words| >= 1 ==> words[0] <= r
    ensures |words| >= 2 ==> words[0] + " " <= r
    decreases |words|
  {
    if |words| == 0 then ""
    else if |words| == 1 then words[0]
    else words[0] + " " + Join(words[1..])
  }

  /** Cutting a text at every space, the inverse of `Join` on words without spaces. */
  function Split(text: string): (r: seq<string>)
    ensures |r| >= 1
    decreases |text|
  {
    if text == [] then [""]
    else
      var rest := Split(text[1..]);
      if text[0] == ' ' then [""] + rest else [[text[0]] + rest[0]] + rest[1..]
  }

  /** The text of a phrase; `None` where JavaScript would interpolate an `undefined` label, which
      happens exactly when some label of the phrase is undefined. A relative text opens with the
      `ago` word and a space; no parts give the empty text. */
  function Render(p: Phrase): (r: Option<string>)
    ensures r.Some? <==>
      match p
      case Exact(parts, _) => forall i :: 0 <= i < |parts| ==> parts[i].name.Word?
      case Relative(_, part) => part.name.Word?
    ensures p.Relative? && r.Some? ==> p.ago + " " <= r.value
    ensures p.Exact? && p.parts == [] ==> r == Some("")
  {
    match p
    case Exact(parts, short) =>
      (match Texts(parts, short)
       case Some(texts) => Some(Join(texts))
       case None => None)
    case Relative(ago, part) =>
      (match SegmentText(part, false)
       case Some(text) => Some(ago + " " + text)
       case None => None)
  }

  lemma {:induction false} SplitWord(w: string)
    requires ' ' !in w
    ensures Split(w) == [w]
    decreases |w|
  {
    if w != [] {
      SplitWord(w[1..]);
      assert [w[0]] + w[1..] == w;
    }
  }

  lemma {:induction false} SplitWordThen(w: string, rest: string)
    requires ' ' !in w
    ensures Split(w + " " + rest) == [w] + Split(rest)
    decreases |w|
  {
    var t := w + " " + rest;
    if w == [] {
      assert t[1..] == rest;
    } else {
      assert t[1..] == w[1..] + " " + rest;
      SplitWordThen(w[1..], rest);
      assert [w[0]] + w[1..] == w;
    }
  }

  /** Joining words that contain no space and cutting at spaces gives the words back. */
  lemma {:induction false} SplitJoin(words: seq<string>)
    requires |words| >= 1
    requires forall i :: 0 <= i < |words| ==> ' ' !in words[i]
    ensures Split(Join(words)) == words
    decreases |words|
  {
    if |words| == 1 {
      SplitWord(words[0]);
    } else {
      SplitJoin(words[1..]);
      SplitWordThen(words[0], Join(words[1..]));
      assert [words[0]] + words[1..] == words;
    }
  }

  lemma NumeralHasNoSpace(n: nat)
    ensures ' ' !in Show(n)
  {
  }

  /** A phrase renders exactly when every label in it is defined. */
  lemma RenderDefined(p: Phrase)
    ensures Render(p).Some? <==>
      match p
      case Exact(parts, _) => forall i :: 0 <= i < |parts| ==> parts[i].name.Word?
      case Relative(_, part) => part.name.Word?
  {
  }

  /** The words long-mode text is made of: each part's numeral, then its label. */
  function Flat(parts: seq<Segment>): (r: seq<string>)
    requires forall i :: 0 <= i < |parts| ==> parts[i].name.Word?
    ensures |r| == 2 * |parts|
    ensures forall i :: 0 <= i < |parts| ==>
              r[2 * i] == Show(parts[i].count) && r[2 * i + 1] == parts[i].name.text
    decreases |parts|
  {
    if parts == [] then []
    else [Show(parts[0].count), parts[0].name.text] + Flat(parts[1..])
  }

  /** In long mode a part is its numeral, a space and its label, so when no label holds a space
      the rendered text cut at spaces yields numeral and label alternately, part after part. */
  lemma {:induction false} LongTokens(parts: seq<Segment>)
    requires |parts| >= 1
    requires forall i :: 0 <= i < |parts| ==> parts[i].name.Word? && ' ' !in parts[i].name.text
    ensures Render(Exact(parts, false)).Some?
    ensures Split(Render(Exact(parts, false)).value) == Flat(parts)
    decreases |parts|
  {
    var texts := Texts(parts, false).value;
    var c := Show(parts[0].count);
    var l := parts[0].name.text;
    assert texts[0] == c + " " + l by {
      assert SegmentText(parts[0], false) == Some(texts[0]);
    }
    assert ' ' !in c by {
      NumeralHasNoSpace(parts[0].count);
    }
    assert Flat(parts) == [c, l] + Flat(parts[1..]);
    if |parts| == 1 {
      SplitPair(c, l);
    } else {
      var rest := Join(texts[1..]);
      assert Split(rest) == Flat(parts[1..]) by {
        LongTokens(parts[1..]);
        assert Texts(parts[1..], false).value == texts[1..];
      }
      assert Render(Exact(parts, false)).value == c + " " + (l + " " + rest);
      SplitPairThen(c, l, rest);
    }
  }

  lemma SplitPair(c: string, l: string)
    requires ' ' !in c && ' ' !in l
    ensures Split(c + " " + l) == [c, l]
  {
    SplitWordThen(c, l);
    SplitWord(l);
  }

  lemma SplitPairThen(c: string, l: string, rest: string)
    requires ' ' !in c && ' ' !in l
    ensures Split(c + " " + (l + " " + rest)) == [c, l] + Split(rest)
  {
    SplitWordThen(l, rest);
    SplitWordThen(c, l + " " + rest);
  }

  /** In short mode no part holds a space, so the rendered text cut at spaces yields the parts
      one by one, each the count's numeral followed directly by its abbreviation. */
  lemma ShortTokens(parts: seq<Segment>)
    requires |parts| >= 1
    requires forall i :: 0 <= i < |parts| ==> parts[i].name.Word? && ' ' !in parts[i].name.text
    ensures Render(Exact(parts, true)).Some?
    ensures var tokens := Split(Render(Exact(parts, true)).value);
            |tokens| == |parts| &&
            forall i :: 0 <= i < |parts| ==> tokens[i] == Show(parts[i].count) + parts[i].name.text
  {
    var texts := Texts(parts, true).value;
    forall i | 0 <= i < |parts|
      ensures texts[i] == Show(parts[i].count) + parts[i].name.text
      ensures ' ' !in texts[i]
    {
      NumeralHasNoSpace(parts[i].count);
      assert SegmentText(parts[i], true) == Some(texts[i]);
      assert texts[i] == Show(parts[i].count) + "" + parts[i].name.text;
    }
    SplitJoin(texts);
  }
}
