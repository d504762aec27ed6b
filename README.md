# WebVTT captions to a Markdown transcript

A Dafny model of the deterministic part of `processing.py` in the `digest`
tool, which turns a YouTube caption track (a WebVTT document) into a cleaned
Markdown transcript before handing it to a language model:

- `VTTParser.parse_subtitles` cuts the document into blocks at empty lines
  (runs of two or more newlines; a line holding only spaces does not cut),
  skips the `WEBVTT` header block, takes the first line of every other block
  of at least two lines as its timing and the remaining lines, joined by
  spaces and stripped, as its text, drops empty texts and `align:`
  directives, and keeps only the first record with a given text.
- `TextSanitizer.sanitize` rewrites a record's text in place: whitespace is
  collapsed, a full stop is added when no `.`, `!` or `?` ends the text, the
  first character is upper-cased, the `[ __ ]` placeholder becomes
  `[profanity]`, and finally every `&nbsp;` is deleted.
- `MarkdownConverter.convert_to_markdown` writes `# Video Transcript`, a blank
  line, then each text followed by ` \n`, and strips the result.
- `LanguageModelProcessor._estimate_processing_time` turns a token count into
  an expected number of seconds: twice the count divided by the mean of five
  measured throughputs, rounded.
- `vtt_to_md` chains the first three, up to the language-model call.

Layout:

- `py_str.dfy` (module `PyStr`) models the Python string built-ins the code
  relies on: `strip`, `split('\n')`, `split()`, `join`, `replace` and
  `startswith`.
- `vtt_parser.dfy` (module `VttParser`) holds the parser. A record is a
  `Subtitle` object, because `sanitize` mutates it. `ParseSubtitles` builds
  those objects in a loop. It is proved to produce exactly the cues of the
  value-level specification `ParseCues`.
- `text_sanitizer.dfy` (module `TextSanitizer`) holds the four clean-up steps
  and `sanitize`.
- `markdown_converter.dfy` (module `MarkdownConverter`) holds the Markdown
  rendering.
- `processing_time.dfy` (module `ProcessingTime`) holds the time estimate.
- `pipeline.dfy` (module `Pipeline`) holds `vtt_to_md` up to the model call.
  `VttToMarkdown` is proved to return `Transcript(content)`, and the shape of
  that document is proved once, in `TranscriptShape`.

Three properties one would expect of the clean-up do not hold of the code.
The model follows the code, and lemmas show how it behaves:

- One would expect sanitising twice to change nothing, but it can. `sanitize`
  deletes `&nbsp;` only after collapsing whitespace and capitalising, so
  `&nbsp; a` becomes ` a.`, and sanitising that again gives `A.`
  (`SanitizeNotIdempotent`).
- One would expect no `[ __ ]` placeholder to survive, but one can. The same
  late deletion can assemble a placeholder: `[ _&nbsp;_ ]` becomes `[ __ ].`
  (`SanitizeCanLeaveMask`). Text without `&` keeps both promises of the
  profanity step (`SanitizeWithoutAmpersand`).
- One would expect no `&nbsp;` to survive, but one can. The deletion runs
  once, so removing one entity can bring the pieces of another together:
  `&nb&nbsp;sp;` becomes `&nbsp;.` (`SanitizeCanLeaveEntity`).

## Model

| member | source | states |
|---|---|---|
| PyStr.IsSpace | processing.py:45 | `str.isspace` on one ASCII character; used by `strip` and `split()` |
| PyStr.StartsWith | processing.py:46 | `str.startswith`: the text begins with the prefix |
| PyStr.SkipSpace | processing.py:37 | the first position at or after a start that does not hold whitespace, with only whitespace skipped |
| PyStr.SkipSpaceBack | processing.py:37 | the end of a prefix once its trailing whitespace is dropped, with only whitespace dropped |
| PyStr.TrimStart | processing.py:37 | `lstrip`: the result is a suffix of the input, everything removed is whitespace, and the result does not start with whitespace |
| PyStr.TrimEnd | processing.py:37 | `rstrip`: the result is a prefix of the input, everything removed is whitespace, and the result does not end with whitespace |
| PyStr.Strip | processing.py:37 | `strip`: the result has no surrounding whitespace, and it is empty exactly when the input is all whitespace |
| PyStr.StripEmpty | processing.py:37 | trimming both ends empties a text exactly when it is all whitespace |
| PyStr.StripStripped | processing.py:92 | stripping already-stripped text changes nothing |
| PyStr.StripTrailing | processing.py:92 | stripping a stripped text followed by whitespace gives back that text |
| PyStr.TrimEndKeeps | processing.py:92 | right-stripping never removes a non-space character or anything before it |
| PyStr.StripKeepsPrefix | processing.py:88-92 | stripping text that begins with a stripped part keeps that part at the front |
| PyStr.TrimEndTrailing | processing.py:92 | right-stripping a text that ends in a non-space character, followed by whitespace, gives back that text |
| PyStr.JoinWith | processing.py:45 | `sep.join(parts)`: the parts in order with the separator between neighbours; `SplitOnJoin`, `WordsOfJoin`, `ReplaceJoin` and `SplitBlocksJoin` are its partners |
| PyStr.JoinSnoc | processing.py:89-90 | joining one more part appends the separator and the part |
| PyStr.JoinLastChar | processing.py:90-92 | a join ends with the last character of its last part |
| PyStr.SplitOn | processing.py:42 | `split('\n')`: there is at least one piece, no piece holds the separator, and joining the pieces with the separator gives the input back |
| PyStr.SplitOnPrefix | processing.py:42 | a prefix without the separator joins the first piece |
| PyStr.SplitOnJoin | processing.py:42 | splitting undoes joining when no part holds the separator |
| PyStr.WordEnd | processing.py:61 | the length of the leading run of non-whitespace characters: what it covers has no whitespace, and whitespace follows it |
| PyStr.Words | processing.py:61 | `split()`: every word is non-empty and free of whitespace, and there are no words exactly when the text is all whitespace; `WordsOfWord`, `WordsSkipSpace` and `WordsSplit` fix the words as the maximal non-space runs |
| PyStr.WordsOfWord | processing.py:61 | a non-empty text without whitespace is one word |
| PyStr.WordsSkipSpace | processing.py:61 | leading whitespace produces no word |
| PyStr.WordsSplit | processing.py:61 | a word followed by a run of whitespace is the first word, and the whole run is dropped with it |
| PyStr.WordsOfJoin | processing.py:61 | splitting words joined by single spaces gives those words back |
| PyStr.WordsKeepText | processing.py:61 | the words, concatenated, are exactly the non-whitespace characters of the text, in order |
| PyStr.NonSpaceAppend | processing.py:61 | the non-whitespace characters of a concatenation are those of its halves |
| PyStr.NonSpaceMember | processing.py:61 | a non-space character survives among the non-space characters exactly when it occurs in the text |
| PyStr.Replace | processing.py:72-81 | `str.replace`: occurrences found left to right without overlap are replaced and the text between them kept; `ReplaceJoin` states it for all inputs that split at the pattern's first character |
| PyStr.ReplaceAbsent | processing.py:72 | `replace` leaves text without the pattern as it is |
| PyStr.ReplaceKeepsOut | processing.py:72 | `replace` never introduces a character that is in neither the text nor the replacement |
| PyStr.ReplaceJoin | processing.py:72 | `pat.join(parts).replace(pat, rep)` is `rep.join(parts)` when no part holds the pattern's first character |
| PyStr.ReplaceAfter | processing.py:81 | a prefix without the pattern's first character is copied unchanged |
| PyStr.ReplaceKeepsLast | processing.py:72-81 | when the text's last character differs from the pattern's last, the result ends with that character |
| PyStr.ReplacePrefixBack | processing.py:72 | a prefix of the result that avoids the pattern's first character was a prefix of the input |
| PyStr.NoMatchAfterReplacement | processing.py:72 | a replacement that cannot restart the pattern, followed by pattern-free text, is pattern-free |
| PyStr.NoMatchAfterKept | processing.py:72 | a character kept because no match starts at it, followed by the pattern-free rest, leaves no match |
| PyStr.NoMatchAtKept | processing.py:72 | no match starts at a character kept because no match started there in the input |
| PyStr.NoMatchAfterChar | processing.py:72 | one character in front of pattern-free text can only start a match itself |
| PyStr.ReplaceRemovesAll | processing.py:72 | a replacement that cannot start a new occurrence leaves no occurrence of the pattern |
| VttParser.Subtitle.constructor | processing.py:49 | a new record holds the given timing and text |
| VttParser.Snapshot | processing.py:49 | the values the records hold, position by position |
| VttParser.BreakFrom | processing.py:37 | the first empty line at or after a position, or the end when there is none |
| VttParser.NewlinesEnd | processing.py:37 | the end of a run of newlines |
| VttParser.SplitBlocks | processing.py:37 | `re.split(r'\n\n+', ...)`: there is at least one block, and no block holds an empty line |
| VttParser.SplitBlocksJoin | processing.py:37 | splitting undoes joining well-formed blocks with empty lines |
| VttParser.SplitBlocksGap | processing.py:37 | a run of two or more newlines is a single separator: a block, the run and text not starting with a newline split into the block and the pieces of that text |
| VttParser.GapBreak | processing.py:37 | the first empty line after a block without one starts at the end of the block |
| VttParser.GapEnd | processing.py:37 | a run of newlines ends where the following text starts |
| VttParser.Candidate | processing.py:42-46 | a block without a newline gives no cue, and every cue a block gives has a one-line timing and a non-empty, stripped text that is not an `align:` directive |
| VttParser.CandidateOfLines | processing.py:42-46 | a block made of a timing line and text lines gives that timing with the lines joined by spaces and stripped, or nothing when that text is empty or an `align:` directive |
| VttParser.FilterMapMembership | processing.py:41-46 | a cue is among the candidates exactly when some block gives it |
| VttParser.FilterMap | processing.py:41-46 | the present results of a function over a sequence, in order; `FilterMapMembership` is its partner |
| VttParser.Candidates | processing.py:41-46 | the cues the blocks give, in block order; `CandidatesStep` and `CandidateOrigin` state what it holds |
| VttParser.TextsOfSnoc | processing.py:48-50 | one more cue adds its text at the end of the texts |
| VttParser.FirstIndex | processing.py:48 | the position of the first cue with a given text |
| VttParser.FirstIndexUnique | processing.py:48 | a position holding the text, with no earlier cue holding it, is the first occurrence |
| VttParser.DedupTexts | processing.py:47-50 | deduplication keeps exactly the texts of its input |
| VttParser.Dedup | processing.py:47-50 | the cues whose text has not occurred before, in order; `DedupDistinct`, `DedupFirst`, `DedupOrder` and `DedupTexts` are its partners |
| VttParser.DedupDistinct | processing.py:47-50 | no two kept cues share a text |
| VttParser.FirstIndexSnoc | processing.py:48 | appending a cue does not move the first occurrence of a text already present |
| VttParser.FirstIndexNew | processing.py:48 | an appended cue with a new text is that text's first occurrence |
| VttParser.DedupFirst | processing.py:47-50 | every kept cue is the first cue of the input with its text |
| VttParser.DedupOrder | processing.py:47-50 | kept cues are in the order of their first occurrences |
| VttParser.CandidateOrigin | processing.py:41-46 | each candidate comes from some block after the header |
| VttParser.ParsedCuesOrigin | processing.py:35-52 | every parsed cue comes from a block after the header, never from the header |
| VttParser.ParseCues | processing.py:35-52 | the cues of a document: its stripped text split at empty lines, the header dropped, each block's candidate, deduplicated; `ParseSubtitles` is proved to compute it |
| VttParser.ParsedCuesEligible | processing.py:43-46 | every parsed cue has a one-line timing and a non-empty, stripped text that is not an `align:` directive |
| VttParser.HeaderOnly | processing.py:37-41 | a document without a empty line is all header and yields no cue |
| VttParser.ParseJoinedBlocks | processing.py:35-52 | a stripped document made of a header and blocks separated by empty lines yields the deduplicated cues of the blocks after the header |
| VttParser.CandidatesStep | processing.py:41-46 | reading one more block adds its cue, if it gives one, to the candidates |
| VttParser.DedupStep | processing.py:48-50 | one more cue is kept exactly when its text has not been kept yet |
| VttParser.ParseStep | processing.py:41-50 | one loop iteration turns the cues kept so far into those kept after one more block |
| VttParser.TextSetMembership | processing.py:48-50 | the set of seen texts holds exactly the texts of the kept cues |
| VttParser.AddIfNew | processing.py:48-50 | a candidate with a new text becomes a fresh record appended to the list, and its text joins the seen set; otherwise nothing changes |
| VttParser.SnapshotSnoc | processing.py:49 | appending a record appends its values |
| VttParser.DistinctSnoc | processing.py:49 | appending a record that is not yet in the list keeps the records distinct |
| VttParser.TextSetSnoc | processing.py:50 | adding a text to the seen set matches appending the cue |
| VttParser.ReadBlock | processing.py:41-50 | one iteration of the loop: the records and the seen set afterwards match the deduplicated cues of one more block |
| VttParser.ParseSubtitles | processing.py:35-52 | `parse_subtitles`: fresh, distinct records whose values are exactly `ParseCues` of the document |
| VttParser.NoBlocksRead | processing.py:38-39 | before the loop, no cue is kept |
| VttParser.AllBlocksRead | processing.py:41-52 | after the loop over every block after the header, the kept cues are the parse result |
| TextSanitizer.CleanWhitespace | processing.py:60-61 | `clean_whitespace`: the result is single-spaced and has exactly the words of the text, so each run of whitespace between two words becomes one space; it keeps every non-space character in order, and is empty exactly when the text is all whitespace |
| TextSanitizer.CleanFirst | processing.py:60-61 | text that starts with a non-space character keeps it in front |
| TextSanitizer.JoinWordsSingleSpaced | processing.py:61 | joining non-empty words with single spaces gives single-spaced text that is empty only without words |
| TextSanitizer.JoinWordsNonSpace | processing.py:61 | joining words with spaces keeps exactly their characters |
| TextSanitizer.SingleSpacedAfter | processing.py:61 | in single-spaced text, a space is a plain space, and single-spaced text follows it |
| TextSanitizer.CleanSingleSpaced | processing.py:60-61 | single-spaced text comes back from `clean_whitespace` unchanged |
| TextSanitizer.CleanWhitespaceIdempotent | processing.py:60-61 | `clean_whitespace` is idempotent |
| TextSanitizer.AddPunctuation | processing.py:63-66 | `add_punctuation`: empty text stays empty, any other result ends in `.`, `!` or `?`, extends the text by at most one character, and text already ending so is unchanged; otherwise a full stop is appended |
| TextSanitizer.AddPunctuationIdempotent | processing.py:63-66 | `add_punctuation` is idempotent |
| TextSanitizer.Upper | processing.py:69 | upper-casing gives a non-lower-case character; a lower-case letter moves to its capital, and anything else is kept |
| TextSanitizer.FixCapitalization | processing.py:68-69 | `fix_capitalization`: the length is kept, the first character is upper-cased and the rest is unchanged |
| TextSanitizer.FixCapitalizationIdempotent | processing.py:68-69 | `fix_capitalization` is idempotent and keeps terminal punctuation at the end |
| TextSanitizer.FixProfanity | processing.py:71-72 | `fix_profanity`: no `[ __ ]` placeholder is left, and text without one is unchanged |
| TextSanitizer.MaskReplacementRemovesAll | processing.py:71-72 | `[profanity]` cannot form a new placeholder with what follows it |
| TextSanitizer.FixProfanityMarks | processing.py:71-72 | each placeholder becomes `[profanity]` and the text around it is kept: pieces without `[` joined by placeholders come out joined by markers |
| TextSanitizer.SanitizeText | processing.py:75-83 | the text `sanitize` stores: whitespace-only text becomes empty, and any other text ends in `.`, `!` or `?` |
| TextSanitizer.SanitizeCapitalisesLowerFirst | processing.py:75-83 | text starting with a lower-case letter is sanitised to text starting with its capital |
| TextSanitizer.ReplacementsKeepTerminal | processing.py:72-81 | terminal punctuation at the end of a text survives the placeholder replacement and the `&nbsp;` deletion |
| TextSanitizer.Sanitize | processing.py:75-83 | `sanitize`: the record's text becomes its sanitised form, its timing is kept, and the same record is returned |
| TextSanitizer.SanitizeWithoutAmpersand | processing.py:75-83 | for text without `&` the `&nbsp;` deletion does nothing and no placeholder is left |
| TextSanitizer.AbsentFirst | processing.py:72 | text without the pattern's first character does not hold the pattern |
| TextSanitizer.SanitizeBeforeDeletion | processing.py:76-81 | single-spaced, capitalised, unpunctuated text without placeholders reaches the deletion step with only a full stop added |
| TextSanitizer.CapitalisedUnchanged | processing.py:69 | text not starting with a lower-case letter is left as it is |
| TextSanitizer.LeadingEntityDeleted | processing.py:81 | deleting `&nbsp;` from `&nbsp; a` with its full stop leaves ` a.` |
| TextSanitizer.LeadingEntityExample | processing.py:77-80 | `&nbsp; a` passes the first four steps with only a full stop added |
| TextSanitizer.SanitizeLeavesLeadingSpace | processing.py:75-83 | sanitising `&nbsp; a` gives ` a.`, which has a leading space and a lower-case first letter |
| TextSanitizer.CleanLeadingSpace | processing.py:61 | collapsing the whitespace of ` a.` drops the leading space |
| TextSanitizer.SanitizeSecondPass | processing.py:75-83 | sanitising ` a.` gives `A.` |
| TextSanitizer.SanitizeNotIdempotent | processing.py:75-83 | sanitising twice can differ from sanitising once, and a sanitised text need not be stripped |
| TextSanitizer.SplitMaskAbsent | processing.py:72 | `[ _&nbsp;_ ]` with its full stop holds no placeholder |
| TextSanitizer.InnerEntityDeleted | processing.py:81 | deleting `&nbsp;` from `[ _&nbsp;_ ]` with its full stop joins a placeholder `[ __ ].` |
| TextSanitizer.SanitizeCanLeaveMask | processing.py:75-83 | sanitising `[ _&nbsp;_ ]` gives `[ __ ].`, which still holds the placeholder |
| TextSanitizer.SplitMaskPrepared | processing.py:77-79 | `[ _&nbsp;_ ]` is single-spaced, capitalised and not yet punctuated |
| TextSanitizer.JoinedMaskOccurs | processing.py:72 | `[ __ ].` holds the placeholder |
| TextSanitizer.SanitizeCanLeaveEntity | processing.py:75-83 | sanitising `&nb&nbsp;sp;` gives `&nbsp;.`, which still holds the entity |
| TextSanitizer.SplitEntityPrepared | processing.py:77-80 | `&nb&nbsp;sp;` is single-spaced, not lower-case at the front, not yet punctuated, and holds no placeholder |
| TextSanitizer.SplitEntityDeleted | processing.py:81 | deleting `&nbsp;` from `&nb&nbsp;sp;` with its full stop leaves `&nbsp;.` |
| TextSanitizer.EntityFirstKept | processing.py:81 | when no entity starts at a leading `&nb`, those characters are kept and deletion goes on after them |
| MarkdownConverter.Markdown | processing.py:87-92 | the document always starts with `# Video Transcript` and has no surrounding whitespace |
| MarkdownConverter.HeadingKept | processing.py:88-92 | stripping cannot touch the heading at the front |
| MarkdownConverter.MarkdownEmpty | processing.py:87-92 | without records the document is the heading alone |
| MarkdownConverter.BodyIsJoin | processing.py:89-90 | the appended lines are the texts joined by ` \n`, plus a final ` \n` |
| MarkdownConverter.Body | processing.py:88-90 | each text followed by ` \n`, in order; `BodyIsJoin` gives it as a join |
| MarkdownConverter.MarkdownShape | processing.py:87-92 | when the last text ends in a non-space character, the document is the heading, a blank line and the texts joined by ` \n` |
| MarkdownConverter.RecordTexts | processing.py:89-90 | the records' texts, position by position |
| MarkdownConverter.ConvertToMarkdown | processing.py:87-92 | `convert_to_markdown`: the result is the document for the records' texts |
| ProcessingTime.RoundHalfEven | processing.py:145 | Python's `round` of a rational: the result is at most one half away, and it is even on a tie |
| ProcessingTime.EstimateProcessingTime | processing.py:138-145 | twice the token count over the mean throughput, rounded half to even; `EstimateClosedForm` gives its closed form |
| ProcessingTime.EstimateClosedForm | processing.py:138-145 | the mean throughput is 123 tokens per second, no token count lands on a tie, and the estimate is `(4n + 123) div 246` |
| ProcessingTime.TpsTotals | processing.py:140-141 | the five throughputs sum to 615 |
| ProcessingTime.NearestOf615 | processing.py:145 | an integer strictly closer than one half to `p / 615` is the only one at most one half away |
| ProcessingTime.EstimateNonNegative | processing.py:138-145 | the estimate is never negative |
| ProcessingTime.EstimateMonotone | processing.py:138-145 | more tokens never give a smaller estimate |
| ProcessingTime.EstimateZero | processing.py:138-145 | the estimate is zero exactly for counts up to 30 tokens |
| Pipeline.SanitizeAll | processing.py:153 | each text sanitised, with the same length and positions |
| Pipeline.SanitizedTexts | processing.py:150-153 | the sanitised texts of the parsed cues |
| Pipeline.Transcript | processing.py:148-156 | the Markdown document for the sanitised texts of the parsed cues; `TranscriptShape` gives its form |
| Pipeline.SanitizedTextsTerminal | processing.py:150-153 | every sanitised parsed text ends in `.`, `!` or `?` |
| Pipeline.TranscriptShape | processing.py:148-156 | without cues the transcript is the heading alone; otherwise it is the heading, a blank line and the sanitised texts joined by ` \n` |
| Pipeline.MarkdownOfTerminal | processing.py:155-156 | texts ending in terminal punctuation render as the heading, a blank line and the texts joined by ` \n` |
| Pipeline.TerminalLastShape | processing.py:155-156 | when the last text ends in `.`, `!` or `?`, the document is the heading, a blank line and the texts joined by ` \n` |
| Pipeline.HeaderOnlyTranscript | processing.py:148-156 | a document without a blank line gives a transcript of the heading alone |
| Pipeline.SanitizeRecords | processing.py:153 | the list comprehension: the same records come back, each text sanitised in place and each timing kept |
| Pipeline.SanitizeAt | processing.py:153 | one step of the comprehension sanitises the next record, keeps its timing and leaves the others alone |
| Pipeline.SnapshotTexts | processing.py:150 | the records hold the texts of the parsed cues |
| Pipeline.SanitizedRecordTexts | processing.py:153-156 | records holding the sanitised texts give the sanitised texts to the converter |
| Pipeline.TranscriptOfSanitized | processing.py:150-156 | the transcript is the document for the sanitised parsed texts |
| Pipeline.VttToMarkdown | processing.py:148-156 | `vtt_to_md` up to the model call: the Markdown handed to the model is `Transcript(content)` |

## Left out

- Reading the file (`read_file`, processing.py:31-33): the document's content is a parameter of `ParseSubtitles` and `VttToMarkdown`.
- The language-model call (`llm_sanatize`), the OpenAI clients, the progress indicator and the timing and printing around them: the model stops at the Markdown handed to the model.
- `_count_tokens` and the tiktoken encoder: the token count is a parameter of `EstimateProcessingTime`.
- util.py, digest.py and ingest.py (command-line entry points, caption download, caching, progress display) are not part of this model. Video IDs are produced only inside youtube_dl, through its `outtmpl` filename template, and no code shown here extracts them.
- `str.isspace`, `str.strip`, `str.split` and `str.upper` are modelled on ASCII only. Unicode whitespace and case mappings, including those that change length, are not modelled.
- The parser's blank-line split is modelled directly as a function, not through a regular-expression engine.
- ProcessingTime.EstimateProcessingTime: the source divides in floating point before rounding. The model rounds the exact rational. The two agree unless the floating-point error moves a quotient across a rounding boundary, and the exact quotients stay at least 1/246 away from any boundary.
- `MarkdownConverter.convert_to_markdown` reads the `text` key of each record. Records are modelled as `Subtitle` objects, so a record without that key cannot arise.
