/** The deterministic front of `vtt_to_md`: parse the captions, sanitise every
    record in place, and render the records as Markdown. What follows (the
    language-model call) is not part of this model. */
module Pipeline {
  import opened PyStr
  import opened VttParser
  import opened TextSanitizer
  import opened MarkdownConverter

  /** Each text sanitised. */
  function SanitizeAll(texts: seq<string>): (r: seq<string>)
    ensures |r| == |texts|
    ensures forall k :: 0 <= k < |r| ==> r[k] == SanitizeText(texts[k])
  {
    seq(|texts|, k requires 0 <= k < |texts| => SanitizeText(texts[k]))
  }

  /** The texts of the parsed cues, sanitised. */
  function SanitizedTexts(content: string): seq<string>
  {
    SanitizeAll(TextsOf(ParseCues(content)))
  }

  /** The Markdown `vtt_to_md` hands to the language model. */
  function Transcript(content: string): string
  {
    Markdown(SanitizedTexts(content))
  }

  /** Every sanitised text ends in terminal punctuation: the parser only
      keeps texts with a non-space character. */
  lemma SanitizedTextsTerminal(content: string)
    ensures forall k :: 0 <= k < |SanitizedTexts(content)| ==> EndsTerminal(SanitizedTexts(content)[k])
  {
    var cues := ParseCues(content);
    var texts := SanitizedTexts(content);
    ParsedCuesEligible(content);
    forall k | 0 <= k < |texts| ensures EndsTerminal(texts[k]) {
      assert Eligible(cues[k]);
      assert !IsSpace(cues[k].text[0]);
    }
  }

  /** Without cues the transcript is the heading alone; otherwise it is the
      preamble followed by the sanitised texts joined by line ends. */
  lemma TranscriptShape(content: string)
    ensures ParseCues(content) == [] ==> Transcript(content) == Heading
    ensures ParseCues(content) != [] ==>
      Transcript(content) == Preamble + JoinWith(SanitizedTexts(content), LineEnd)
  {
    SanitizedTextsTerminal(content);
    MarkdownOfTerminal(SanitizedTexts(content));
  }

  /** Texts that all end in terminal punctuation render as the preamble and
      the texts joined by line ends (the heading alone when there are none). */
  lemma MarkdownOfTerminal(texts: seq<string>)
    requires forall k :: 0 <= k < |texts| ==> EndsTerminal(texts[k])
    ensures texts == [] ==> Markdown(texts) == Heading
    ensures texts != [] ==> Markdown(texts) == Preamble + JoinWith(texts, LineEnd)
  {
    if texts == [] {
      MarkdownEmpty();
    } else {
      TerminalLastShape(texts, texts[|texts| - 1]);
    }
  }

  /** Texts whose last one ends in terminal punctuation render as the
      preamble and the texts joined by line ends. */
  lemma TerminalLastShape(texts: seq<string>, last: string)
    requires texts != [] && last == texts[|texts| - 1] && EndsTerminal(last)
    ensures Markdown(texts) == Preamble + JoinWith(texts, LineEnd)
  {
    TerminalNotSpace(last);
    MarkdownShape(texts);
  }

  /** Terminal punctuation is not whitespace. */
  lemma TerminalNotSpace(t: string)
    requires EndsTerminal(t)
    ensures t != "" && !IsSpace(t[|t| - 1])
  {
  }

  /** A document without a blank line renders as the heading alone. */
  lemma HeaderOnlyTranscript(content: string)
    requires !HasBreak(Strip(content))
    ensures Transcript(content) == Heading
  {
    HeaderOnly(content);
    MarkdownEmpty();
  }

  /** The list comprehension of `vtt_to_md` that sanitises every record: the
      same records come back, each text sanitised in place. */
  method SanitizeRecords(records: seq<Subtitle>) returns (sanitized: seq<Subtitle>)
    requires Distinct(records)
    modifies records
    ensures sanitized == records
    ensures forall k :: 0 <= k < |records| ==> records[k].text == SanitizeText(old(records[k].text))
    ensures forall k :: 0 <= k < |records| ==> records[k].timing == old(records[k].timing)
  {
    ghost var before := Snapshot(records);
    sanitized := [];
    for i := 0 to |records|
      invariant sanitized == records[..i]
      invariant SanitizedBefore(records, before, i)
    {
      SanitizeAt(records, i, before);
      PrefixSnoc(records, i);
      sanitized := sanitized + [records[i]];
    }
  }

  /** A prefix extended by the next element is the longer prefix. */
  lemma PrefixSnoc<T>(s: seq<T>, i: nat)
    requires i < |s|
    ensures s[..i] + [s[i]] == s[..i + 1]
  {
  }

  /** Every record keeps its timing from `before`; those before position `i`
      hold their sanitised text from `before`, the others that text itself. */
  ghost predicate SanitizedBefore(records: seq<Subtitle>, before: seq<Cue>, i: nat)
    reads records
  {
    && |before| == |records|
    && i <= |records|
    && forall k :: 0 <= k < |records| ==>
         records[k].timing == before[k].timing &&
         records[k].text == if k < i then SanitizeText(before[k].text) else before[k].text
  }

  /** One step of the comprehension: record `i` is sanitised, the others are
      left alone. */
  method SanitizeAt(records: seq<Subtitle>, i: nat, ghost before: seq<Cue>)
    requires i < |records|
    requires Distinct(records)
    requires SanitizedBefore(records, before, i)
    modifies records[i]
    ensures SanitizedBefore(records, before, i + 1)
  {
    var s := Sanitize(records[i]);
    forall k | 0 <= k < |records| && k != i
      ensures records[k] != records[i]
    {
      // `Distinct` compares each pair in index order.
      if k < i {
        assert records[k] != records[i];
      } else {
        assert records[i] != records[k];
      }
    }
  }

  /** Records hold the texts of the cues they snapshot to. */
  lemma SnapshotTexts(records: seq<Subtitle>, cues: seq<Cue>)
    requires Snapshot(records) == cues
    ensures |records| == |TextsOf(cues)|
    ensures forall k :: 0 <= k < |records| ==> records[k].text == TextsOf(cues)[k]
  {
    forall k | 0 <= k < |records| ensures records[k].text == TextsOf(cues)[k] {
      assert cues[k] == Cue(records[k].timing, records[k].text);
    }
  }

  /** Records whose texts are the sanitised `texts` render those texts. */
  lemma SanitizedRecordTexts(records: seq<Subtitle>, texts: seq<string>)
    requires |records| == |texts|
    requires forall k :: 0 <= k < |records| ==> records[k].text == SanitizeText(texts[k])
    ensures RecordTexts(records) == SanitizeAll(texts)
  {
  }

  /** The transcript is the document for the sanitised parsed texts. */
  lemma TranscriptOfSanitized(content: string, texts: seq<string>)
    requires texts == SanitizeAll(TextsOf(ParseCues(content)))
    ensures Markdown(texts) == Transcript(content)
  {
  }

  /** `vtt_to_md` up to the language-model call: parse, sanitise each record
      in place, convert to Markdown. */
  method VttToMarkdown(content: string) returns (md: string)
    ensures md == Transcript(content)
  {
    var raw := ParseSubtitles(content);
    forall k | 0 <= k < |raw| ensures fresh(raw[k]) {
      assert raw[k] in raw;
    }
    ghost var texts := TextsOf(ParseCues(content));
    SnapshotTexts(raw, ParseCues(content));
    var sanitized := SanitizeRecords(raw);
    SanitizedRecordTexts(sanitized, texts);
    md := ConvertToMarkdown(sanitized);
    TranscriptOfSanitized(content, RecordTexts(sanitized));
  }
}
