/** `MarkdownConverter.convert_to_markdown`: a heading, a blank line, then one
    line per subtitle holding its text and a trailing space, the whole
    stripped. */
module MarkdownConverter {
  import opened PyStr
  import opened VttParser

  const Heading := "# Video Transcript"
  const Preamble := Heading + "\n\n"
  /** What follows each subtitle's text. */
  const LineEnd := " \n"

  /** The lines appended for `texts`, before stripping. */
  function Body(texts: seq<string>): string
  {
    if texts == [] then "" else Body(texts[..|texts| - 1]) + texts[|texts| - 1] + LineEnd
  }

  /** The document for subtitle texts `texts`: it always begins with the
      heading and has no surrounding whitespace. */
  function Markdown(texts: seq<string>): (r: string)
    ensures StartsWith(r, Heading)
    ensures IsStripped(r)
  {
    HeadingKept(Body(texts));
    Strip(Preamble + Body(texts))
  }

  /** Stripping cannot touch the heading at the front. */
  lemma HeadingKept(x: string)
    ensures StartsWith(Strip(Preamble + x), Heading)
  {
    assert IsStripped(Heading) by {
      assert Heading[0] == '#' && Heading[|Heading| - 1] == 't';
    }
    StripKeepsPrefix(Heading, "\n\n" + x);
    AppendAssoc(Heading, "\n\n", x);
  }

  /** Without subtitles the document is the heading alone. */
  lemma MarkdownEmpty()
    ensures Markdown([]) == Heading
  {
    StripTrailing(Heading, "\n\n");
  }

  /** The body is the texts joined by line ends, plus a final line end. */
  lemma {:induction false} BodyIsJoin(texts: seq<string>)
    requires texts != []
    ensures Body(texts) == JoinWith(texts, LineEnd) + LineEnd
    decreases |texts|
  {
    var init := texts[..|texts| - 1];
    var last := texts[|texts| - 1];
    if init == [] {
      assert texts == [last];
    } else {
      BodyIsJoin(init);
      assert texts == init + [last];
      JoinSnoc(init, last, LineEnd);
    }
  }

  /** When the last text ends in a non-space character, stripping removes only
      the final line end: the document is the preamble followed by the texts
      joined by line ends. */
  lemma MarkdownShape(texts: seq<string>)
    requires texts != []
    requires texts[|texts| - 1] != "" && !IsSpace(texts[|texts| - 1][|texts[|texts| - 1]| - 1])
    ensures Markdown(texts) == Preamble + JoinWith(texts, LineEnd)
  {
    BodyIsJoin(texts);
    var j := JoinWith(texts, LineEnd);
    JoinLastChar(texts, LineEnd);
    var a := Preamble + j;
    assert a[0] == '#' && a[|a| - 1] == j[|j| - 1];
    assert Preamble + Body(texts) == a + LineEnd;
    StripTrailing(a, LineEnd);
  }

  /** The texts of records `subtitles`, in order. */
  function RecordTexts(subtitles: seq<Subtitle>): (r: seq<string>)
    reads subtitles
    ensures |r| == |subtitles|
    ensures forall k :: 0 <= k < |r| ==> r[k] == subtitles[k].text
  {
    if subtitles == [] then [] else RecordTexts(subtitles[..|subtitles| - 1]) + [subtitles[|subtitles| - 1].text]
  }

  /** `convert_to_markdown`: appends a line per record to the preamble, then
      strips the result. */
  method ConvertToMarkdown(subtitles: seq<Subtitle>) returns (md: string)
    ensures md == Markdown(RecordTexts(subtitles))
  {
    md := Preamble;
    for i := 0 to |subtitles|
      invariant md == Preamble + Body(RecordTexts(subtitles[..i]))
    {
      assert subtitles[..i + 1][..i] == subtitles[..i];
      md := md + subtitles[i].text + LineEnd;
    }
    assert subtitles[..|subtitles|] == subtitles;
    md := Strip(md);
  }
}
