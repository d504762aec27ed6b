/** The WebVTT reader of processing.py: the document is cut into blocks at
    empty lines (runs of two or more newlines), the first block (the `WEBVTT`
    header) is skipped, every other block of at least two lines gives a cue whose timing is its first line and
    whose text is the remaining lines joined by spaces, and only the first cue
    with a given text is kept. */
module VttParser {
  import opened PyStr

  /** A subtitle entry as a value: the `{'timing': ..., 'text': ...}` record. */
  datatype Cue = Cue(timing: string, text: string)

  datatype Option<T> = None | Some(value: T)

  /** The mutable record the parser hands out; `Sanitize` rewrites its text in place. */
  class Subtitle {
    var timing: string
    var text: string

    constructor (timing: string, text: string)
      ensures this.timing == timing && this.text == text
    {
      this.timing := timing;
      this.text := text;
    }
  }

  /** Cues with this prefix are positioning directives, not text. */
  const AlignPrefix := "align:"

  /** The values the records currently hold, in order. */
  function Snapshot(subtitles: seq<Subtitle>): (r: seq<Cue>)
    reads subtitles
    ensures |r| == |subtitles|
    ensures forall k :: 0 <= k < |r| ==> r[k] == Cue(subtitles[k].timing, subtitles[k].text)
  {
    if subtitles == [] then []
    else
      var last := subtitles[|subtitles| - 1];
      Snapshot(subtitles[..|subtitles| - 1]) + [Cue(last.timing, last.text)]
  }

  /** The texts of the cues, in order. */
  function TextsOf(cues: seq<Cue>): seq<string>
  {
    seq(|cues|, k requires 0 <= k < |cues| => cues[k].text)
  }

  // ------------------------------------------------------- blocks: re.split(r'\n\n+', s)

  /** Two newlines in a row start at `j`. */
  predicate IsBreak(s: string, j: int) {
    0 <= j && j + 1 < |s| && s[j] == '\n' && s[j + 1] == '\n'
  }

  predicate HasBreak(s: string) {
    exists j | 0 <= j < |s| :: IsBreak(s, j)
  }

  /** The first break at or after `i`, or `|s|` when there is none. */
  function BreakFrom(s: string, i: nat): (k: nat)
    requires i <= |s|
    ensures i <= k <= |s|
    ensures k < |s| ==> IsBreak(s, k)
    ensures forall j :: i <= j < k ==> !IsBreak(s, j)
    decreases |s| - i
  {
    if i + 1 >= |s| then |s|
    else if s[i] == '\n' && s[i + 1] == '\n' then i
    else BreakFrom(s, i + 1)
  }

  /** The end of the run of newlines that starts at `i`. */
  function NewlinesEnd(s: string, i: nat): (k: nat)
    requires i <= |s|
    ensures i <= k <= |s|
    ensures k < |s| ==> s[k] != '\n'
    ensures forall j :: i <= j < k ==> s[j] == '\n'
    decreases |s| - i
  {
    if i < |s| && s[i] == '\n' then NewlinesEnd(s, i + 1) else i
  }

  /** `re.split(r'\n\n+', s)`: the pieces between maximal runs of two or more
      newlines. There is always at least one piece and no piece holds an empty
      line. */
  function SplitBlocks(s: string): (r: seq<string>)
    ensures |r| >= 1
    ensures forall m :: 0 <= m < |r| ==> !HasBreak(r[m])
    decreases |s|
  {
    var k := BreakFrom(s, 0);
    if k == |s| then
      assert !HasBreak(s);
      [s]
    else
      var e := NewlinesEnd(s, k);
      assert e >= k + 2 by {
        assert s[k] == '\n' && s[k + 1] == '\n';
      }
      assert !HasBreak(s[..k]) by {
        forall j | 0 <= j < k ensures !IsBreak(s[..k], j) {
          assert !IsBreak(s, j);
        }
      }
      [s[..k]] + SplitBlocks(s[e..])
  }

  /** A well-formed block: non-empty, no empty line inside, and no newline at
      either end. */
  predicate IsBlock(b: string) {
    b != "" && b[0] != '\n' && b[|b| - 1] != '\n' && !HasBreak(b)
  }

  /** A run of two or more newlines is one separator: a block without a
      empty line and without a final newline, then the run, then text that
      does not start with a newline, splits into the block and the pieces of
      that text. */
  lemma SplitBlocksGap(b: string, g: string, rest: string)
    requires !HasBreak(b) && (b == "" || b[|b| - 1] != '\n')
    requires |g| >= 2 && forall j :: 0 <= j < |g| ==> g[j] == '\n'
    requires rest == "" || rest[0] != '\n'
    ensures SplitBlocks(b + g + rest) == [b] + SplitBlocks(rest)
  {
    var s := b + g + rest;
    GapBreak(b, g, rest);
    GapEnd(b, g, rest);
    assert s[|b| + |g|..] == rest;
    assert s[..|b|] == b;
  }

  /** The first break of a block, a run of newlines and more text is where
      the run starts. */
  lemma GapBreak(b: string, g: string, rest: string)
    requires !HasBreak(b) && (b == "" || b[|b| - 1] != '\n')
    requires |g| >= 2 && forall j :: 0 <= j < |g| ==> g[j] == '\n'
    ensures BreakFrom(b + g + rest, 0) == |b|
  {
    var s := b + g + rest;
    forall j | 0 <= j < |b| ensures !IsBreak(s, j) {
      if j + 1 < |b| {
        assert s[j] == b[j] && s[j + 1] == b[j + 1];
        assert !IsBreak(b, j);
      } else {
        assert s[j] == b[|b| - 1];
      }
    }
    assert s[|b|] == g[0] && s[|b| + 1] == g[1];
    assert IsBreak(s, |b|);
  }

  /** The run of newlines after a block ends where the following text starts. */
  lemma GapEnd(b: string, g: string, rest: string)
    requires forall j :: 0 <= j < |g| ==> g[j] == '\n'
    requires rest == "" || rest[0] != '\n'
    ensures NewlinesEnd(b + g + rest, |b|) == |b| + |g|
  {
    var s := b + g + rest;
    var m := |b| + |g|;
    assert forall j :: |b| <= j < m ==> s[j] == g[j - |b|];
    assert m < |s| ==> s[m] == rest[0];
  }

  /** Splitting undoes joining well-formed blocks with an empty line. */
  lemma {:induction false} SplitBlocksJoin(blocks: seq<string>)
    requires |blocks| >= 1
    requires forall m :: 0 <= m < |blocks| ==> IsBlock(blocks[m])
    ensures SplitBlocks(JoinWith(blocks, "\n\n")) == blocks
    decreases |blocks|
  {
    var b := blocks[0];
    if |blocks| == 1 {
      assert BreakFrom(b, 0) == |b|;
    } else {
      var rest := JoinWith(blocks[1..], "\n\n");
      assert rest != "" && rest[0] == blocks[1][0] by {
        if |blocks| > 2 {
          assert rest == blocks[1] + "\n\n" + JoinWith(blocks[2..], "\n\n");
        }
      }
      SplitBlocksGap(b, "\n\n", rest);
      SplitBlocksJoin(blocks[1..]);
      assert blocks == [b] + blocks[1..];
    }
  }

  // ------------------------------------------------------- one block

  /** The cue a block gives, if any: at least two lines, timing from the first,
      text from the rest joined with spaces and stripped, neither empty nor an
      `align:` directive. */
  function Candidate(block: string): (r: Option<Cue>)
    ensures '\n' !in block ==> r == None
    ensures r.Some? ==> Eligible(r.value)
  {
    var lines := SplitOn(block, '\n');
    if |lines| < 2 then
      assert '\n' !in block ==> |lines| == 1 by {
        if '\n' !in block { SplitOnJoin([block], '\n'); }
      }
      None
    else
      var text := Strip(JoinWith(lines[1..], " "));
      if text != "" && !StartsWith(text, AlignPrefix) then
        assert '\n' in block by {
          assert block == lines[0] + "\n" + JoinWith(lines[1..], "\n");
          assert block[|lines[0]|] == '\n';
        }
        Some(Cue(lines[0], text))
      else
        assert '\n' !in block ==> |lines| == 1 by {
          if '\n' !in block { SplitOnJoin([block], '\n'); }
        }
        None
  }

  /** What every emitted cue satisfies: a one-line timing and a non-empty,
      stripped text that is not an alignment directive. */
  predicate Eligible(c: Cue) {
    '\n' !in c.timing && c.text != "" && IsStripped(c.text) && !StartsWith(c.text, AlignPrefix)
  }

  /** `f` applied to each element, keeping the present results, in order. */
  function FilterMap<A, B>(f: A -> Option<B>, xs: seq<A>): seq<B>
    decreases |xs|
  {
    if xs == [] then []
    else
      var init := FilterMap(f, xs[..|xs| - 1]);
      match f(xs[|xs| - 1])
      case None => init
      case Some(y) => init + [y]
  }

  /** A value is kept exactly when some element maps to it. */
  lemma {:induction false} FilterMapMembership<A, B>(f: A -> Option<B>, xs: seq<A>, y: B)
    ensures y in FilterMap(f, xs) <==> exists j :: 0 <= j < |xs| && f(xs[j]) == Some(y)
    decreases |xs|
  {
    if xs != [] {
      var init := xs[..|xs| - 1];
      FilterMapMembership(f, init, y);
      if y in FilterMap(f, init) {
        var j :| 0 <= j < |init| && f(init[j]) == Some(y);
        assert f(xs[j]) == Some(y);
      }
      if exists j :: 0 <= j < |xs| && f(xs[j]) == Some(y) {
        var j :| 0 <= j < |xs| && f(xs[j]) == Some(y);
        if j < |init| {
          assert f(init[j]) == Some(y);
        }
      }
    }
  }

  /** The cues of a sequence of blocks, in block order. */
  function Candidates(blocks: seq<string>): seq<Cue>
  {
    FilterMap(Candidate, blocks)
  }

  // ------------------------------------------------------- deduplication

  lemma TextsOfSnoc(cues: seq<Cue>, c: Cue)
    ensures TextsOf(cues + [c]) == TextsOf(cues) + [c.text]
  {
  }

  /** Keep the first cue with each text; later cues with a text already kept
      are dropped. */
  function Dedup(cues: seq<Cue>): seq<Cue>
    decreases |cues|
  {
    if cues == [] then []
    else
      var kept := Dedup(cues[..|cues| - 1]);
      var c := cues[|cues| - 1];
      if c.text in TextsOf(kept) then kept else kept + [c]
  }

  /** The position of the first cue with text `t`. */
  function FirstIndex(cues: seq<Cue>, t: string): (i: nat)
    requires t in TextsOf(cues)
    ensures i < |cues| && cues[i].text == t
    ensures forall j :: 0 <= j < i ==> cues[j].text != t
    decreases |cues|
  {
    if cues[0].text == t then 0
    else
      assert TextsOf(cues) == [cues[0].text] + TextsOf(cues[1..]);
      1 + FirstIndex(cues[1..], t)
  }

  lemma FirstIndexUnique(cues: seq<Cue>, t: string, i: nat)
    requires i < |cues| && cues[i].text == t
    requires forall j :: 0 <= j < i ==> cues[j].text != t
    ensures t in TextsOf(cues) && FirstIndex(cues, t) == i
  {
    assert TextsOf(cues)[i] == t;
  }

  /** Deduplication keeps exactly the texts of its input. */
  lemma {:induction false} DedupTexts(cues: seq<Cue>)
    ensures forall t :: t in TextsOf(Dedup(cues)) <==> t in TextsOf(cues)
    decreases |cues|
  {
    if cues != [] {
      var init := cues[..|cues| - 1];
      var c := cues[|cues| - 1];
      DedupTexts(init);
      assert cues == init + [c];
      TextsOfSnoc(init, c);
      TextsOfSnoc(Dedup(init), c);
    }
  }

  /** No two cues share a text. */
  predicate DistinctTexts(cues: seq<Cue>) {
    forall i, j :: 0 <= i < j < |cues| ==> cues[i].text != cues[j].text
  }

  /** Every cue of `kept` is the first cue of `cues` with its text. */
  predicate FirstOccurrences(cues: seq<Cue>, kept: seq<Cue>) {
    forall k :: 0 <= k < |kept| ==> kept[k].text in TextsOf(cues) && kept[k] == cues[FirstIndex(cues, kept[k].text)]
  }

  /** The cues of `kept` appear in the order of their first occurrences in `cues`. */
  predicate InFirstOccurrenceOrder(cues: seq<Cue>, kept: seq<Cue>) {
    forall k, l :: 0 <= k < l < |kept| ==>
      kept[k].text in TextsOf(cues) && kept[l].text in TextsOf(cues) &&
      FirstIndex(cues, kept[k].text) < FirstIndex(cues, kept[l].text)
  }

  /** No two kept cues share a text. */
  lemma {:induction false} DedupDistinct(cues: seq<Cue>)
    ensures DistinctTexts(Dedup(cues))
    decreases |cues|
  {
    if cues != [] {
      var init := cues[..|cues| - 1];
      DedupDistinct(init);
      var kept := Dedup(init);
      var c := cues[|cues| - 1];
      if c.text in TextsOf(kept) {
        assert Dedup(cues) == kept;
      } else {
        assert Dedup(cues) == kept + [c];
        forall i | 0 <= i < |kept| ensures kept[i].text != c.text {
          assert TextsOf(kept)[i] == kept[i].text;
        }
      }
    }
  }

  /** Appending a cue does not move the first occurrence of a text already present. */
  lemma FirstIndexSnoc(cues: seq<Cue>, c: Cue, t: string)
    requires t in TextsOf(cues)
    ensures t in TextsOf(cues + [c]) && FirstIndex(cues + [c], t) == FirstIndex(cues, t)
  {
    FirstIndexUnique(cues + [c], t, FirstIndex(cues, t));
  }

  /** An appended cue with a new text is that text's first occurrence. */
  lemma FirstIndexNew(cues: seq<Cue>, c: Cue)
    requires c.text !in TextsOf(cues)
    ensures c.text in TextsOf(cues + [c]) && FirstIndex(cues + [c], c.text) == |cues|
  {
    forall j | 0 <= j < |cues| ensures cues[j].text != c.text {
      assert TextsOf(cues)[j] == cues[j].text;
    }
    FirstIndexUnique(cues + [c], c.text, |cues|);
  }

  /** Every kept cue is the first cue in the input with its text. */
  lemma {:induction false} DedupFirst(cues: seq<Cue>)
    ensures FirstOccurrences(cues, Dedup(cues))
    decreases |cues|
  {
    if cues != [] {
      var init := cues[..|cues| - 1];
      var c := cues[|cues| - 1];
      assert cues == init + [c];
      DedupFirst(init);
      var kept := Dedup(init);
      forall k | 0 <= k < |kept|
        ensures kept[k].text in TextsOf(cues) && kept[k] == cues[FirstIndex(cues, kept[k].text)]
      {
        FirstIndexSnoc(init, c, kept[k].text);
      }
      if c.text !in TextsOf(kept) {
        DedupTexts(init);
        FirstIndexNew(init, c);
        assert Dedup(cues) == kept + [c];
      }
    }
  }

  /** Kept cues stay in the order of their first occurrences. */
  lemma {:induction false} DedupOrder(cues: seq<Cue>)
    ensures InFirstOccurrenceOrder(cues, Dedup(cues))
    decreases |cues|
  {
    if cues != [] {
      var init := cues[..|cues| - 1];
      var c := cues[|cues| - 1];
      assert cues == init + [c];
      DedupOrder(init);
      DedupFirst(init);
      var kept := Dedup(init);
      forall k | 0 <= k < |kept|
        ensures kept[k].text in TextsOf(cues) && FirstIndex(cues, kept[k].text) == FirstIndex(init, kept[k].text)
      {
        FirstIndexSnoc(init, c, kept[k].text);
      }
      if c.text !in TextsOf(kept) {
        DedupTexts(init);
        FirstIndexNew(init, c);
        assert Dedup(cues) == kept + [c];
      }
    }
  }

  // ------------------------------------------------------- the parser

  /** The cues `parse_subtitles` returns for a document. */
  function ParseCues(content: string): seq<Cue>
  {
    var blocks := SplitBlocks(Strip(content));
    Dedup(Candidates(blocks[1..]))
  }

  /** Some block other than the first (the header) gives cue `c`. */
  predicate FromBodyBlock(blocks: seq<string>, c: Cue) {
    exists j :: 1 <= j < |blocks| && Candidate(blocks[j]) == Some(c)
  }

  /** A candidate of the body blocks comes from one of them. */
  lemma CandidateOrigin(blocks: seq<string>, c: Cue)
    requires |blocks| >= 1 && c in Candidates(blocks[1..])
    ensures FromBodyBlock(blocks, c)
  {
    FilterMapMembership(Candidate, blocks[1..], c);
    var j :| 0 <= j < |blocks[1..]| && Candidate(blocks[1..][j]) == Some(c);
    assert blocks[1..][j] == blocks[j + 1];
  }

  /** Every parsed cue comes from some block after the header. */
  lemma ParsedCuesOrigin(content: string)
    ensures forall k :: 0 <= k < |ParseCues(content)| ==>
      FromBodyBlock(SplitBlocks(Strip(content)), ParseCues(content)[k])
  {
    var blocks := SplitBlocks(Strip(content));
    var cands := Candidates(blocks[1..]);
    var d := ParseCues(content);
    assert d == Dedup(cands);
    DedupFirst(cands);
    forall k | 0 <= k < |d|
      ensures FromBodyBlock(blocks, d[k])
    {
      assert d[k] in cands;
      CandidateOrigin(blocks, d[k]);
    }
  }

  /** Every parsed cue has a one-line timing and a non-empty, stripped text
      that is not an alignment directive. */
  lemma ParsedCuesEligible(content: string)
    ensures forall k :: 0 <= k < |ParseCues(content)| ==> Eligible(ParseCues(content)[k])
  {
    ParsedCuesOrigin(content);
  }

  /** A document without an empty line is all header and yields no cue. */
  lemma HeaderOnly(content: string)
    requires !HasBreak(Strip(content))
    ensures ParseCues(content) == []
  {
    var s := Strip(content);
    assert BreakFrom(s, 0) == |s|;
  }

  /** A document written as a header and blocks separated by empty lines
      yields the deduplicated cues of the blocks after the header. */
  lemma ParseJoinedBlocks(header: string, blocks: seq<string>)
    requires IsBlock(header)
    requires forall m :: 0 <= m < |blocks| ==> IsBlock(blocks[m])
    requires IsStripped(JoinWith([header] + blocks, "\n\n"))
    ensures ParseCues(JoinWith([header] + blocks, "\n\n")) == Dedup(Candidates(blocks))
  {
    var all := [header] + blocks;
    forall m | 0 <= m < |all| ensures IsBlock(all[m]) {
      if m > 0 { assert all[m] == blocks[m - 1]; }
    }
    StripStripped(JoinWith(all, "\n\n"));
    SplitBlocksJoin(all);
    assert all[1..] == blocks;
  }

  /** A block made of a timing line and text lines gives the cue of that
      timing and the lines joined by spaces and stripped, unless that text is
      empty or an alignment directive. */
  lemma CandidateOfLines(timing: string, lines: seq<string>)
    requires '\n' !in timing && |lines| >= 1
    requires forall k :: 0 <= k < |lines| ==> '\n' !in lines[k]
    ensures var text := Strip(JoinWith(lines, " "));
      Candidate(timing + "\n" + JoinWith(lines, "\n")) ==
        if text != "" && !StartsWith(text, AlignPrefix) then Some(Cue(timing, text)) else None
  {
    var all := [timing] + lines;
    assert all[1..] == lines;
    assert JoinWith(all, "\n") == timing + "\n" + JoinWith(lines, "\n");
    SplitOnJoin(all, '\n');
  }

  /** One more block adds its cue, if it gives one, to the candidates. */
  lemma CandidatesStep(blocks: seq<string>, i: nat)
    requires 1 <= i < |blocks|
    ensures Candidates(blocks[1..i + 1]) ==
      match Candidate(blocks[i])
      case None => Candidates(blocks[1..i])
      case Some(c) => Candidates(blocks[1..i]) + [c]
  {
    assert blocks[1..i + 1][..i - 1] == blocks[1..i];
  }

  /** One more cue is kept exactly when its text is new. */
  lemma DedupStep(cues: seq<Cue>, c: Cue)
    ensures Dedup(cues + [c]) == if c.text in TextsOf(Dedup(cues)) then Dedup(cues) else Dedup(cues) + [c]
  {
    assert (cues + [c])[..|cues|] == cues;
  }

  /** The kept cues after one more candidate: it is added when there is one
      and its text was not kept before. */
  function Keep(kept: seq<Cue>, candidate: Option<Cue>): seq<Cue>
  {
    match candidate
    case Some(c) => if c.text in TextsOf(kept) then kept else kept + [c]
    case None => kept
  }

  /** What reading block `i` does to the kept cues. */
  lemma ParseStep(blocks: seq<string>, i: nat)
    requires 1 <= i < |blocks|
    ensures Dedup(Candidates(blocks[1..i + 1])) == Keep(Dedup(Candidates(blocks[1..i])), Candidate(blocks[i]))
  {
    CandidatesStep(blocks, i);
    match Candidate(blocks[i])
    case None =>
    case Some(c) => DedupStep(Candidates(blocks[1..i]), c);
  }

  /** The set of texts of `cues`. */
  function TextSet(cues: seq<Cue>): set<string>
  {
    if cues == [] then {} else TextSet(cues[..|cues| - 1]) + {cues[|cues| - 1].text}
  }

  lemma {:induction false} TextSetMembership(cues: seq<Cue>, t: string)
    ensures t in TextSet(cues) <==> t in TextsOf(cues)
    decreases |cues|
  {
    if cues != [] {
      var init := cues[..|cues| - 1];
      TextSetMembership(init, t);
      assert cues == init + [cues[|cues| - 1]];
      TextsOfSnoc(init, cues[|cues| - 1]);
    }
  }

  /** No record appears twice. */
  predicate Distinct(records: seq<Subtitle>)
  {
    forall j, k :: 0 <= j < k < |records| ==> records[j] != records[k]
  }

  /** The end of the body of the loop of `parse_subtitles`: a candidate whose
      text was not seen yet becomes a new record, and its text is marked seen. */
  method AddIfNew(candidate: Option<Cue>, subtitles: seq<Subtitle>, seen: set<string>, ghost kept: seq<Cue>)
    returns (subtitles': seq<Subtitle>, seen': set<string>)
    requires Snapshot(subtitles) == kept && seen == TextSet(kept)
    requires Distinct(subtitles)
    ensures Distinct(subtitles')
    ensures Snapshot(subtitles') == Keep(kept, candidate) && seen' == TextSet(Keep(kept, candidate))
    ensures |subtitles| <= |subtitles'| <= |subtitles| + 1 && subtitles'[..|subtitles|] == subtitles
    ensures forall o :: o in subtitles' ==> o in subtitles || fresh(o)
  {
    subtitles', seen' := subtitles, seen;
    if candidate.Some? {
      var c := candidate.value;
      TextSetMembership(kept, c.text);
      if c.text !in seen {
        var entry := new Subtitle(c.timing, c.text);
        assert entry !in subtitles;
        subtitles' := subtitles + [entry];
        SnocPrefix(subtitles, entry);
        SnapshotSnoc(subtitles, entry);
        DistinctSnoc(subtitles, entry);
        TextSetSnoc(kept, c);
        seen' := seen + {c.text};
      }
    }
  }

  /** A sequence is the prefix of itself with one more element. */
  lemma SnocPrefix<T>(s: seq<T>, x: T)
    ensures (s + [x])[..|s|] == s && (s + [x])[|s|] == x
  {
  }

  /** Snapshotting one more record appends its values. */
  lemma SnapshotSnoc(subtitles: seq<Subtitle>, entry: Subtitle)
    ensures Snapshot(subtitles + [entry]) == Snapshot(subtitles) + [Cue(entry.timing, entry.text)]
  {
    assert (subtitles + [entry])[..|subtitles|] == subtitles;
  }

  /** A record not yet present keeps the records distinct. */
  lemma DistinctSnoc(records: seq<Subtitle>, entry: Subtitle)
    requires Distinct(records) && entry !in records
    ensures Distinct(records + [entry])
  {
  }

  /** The texts of one more cue add its text. */
  lemma TextSetSnoc(cues: seq<Cue>, c: Cue)
    ensures TextSet(cues + [c]) == TextSet(cues) + {c.text}
  {
    assert (cues + [c])[..|cues|] == cues;
  }

  /** One pass of the loop of `parse_subtitles`, over block `i`: the records
      grow from the deduplicated candidates of the blocks before `i` to those
      of the blocks up to and including `i`. */
  method ReadBlock(blocks: seq<string>, i: nat, subtitles: seq<Subtitle>, seen: set<string>, ghost kept: seq<Cue>)
    returns (subtitles': seq<Subtitle>, seen': set<string>)
    requires 1 <= i < |blocks| && kept == Dedup(Candidates(blocks[1..i]))
    requires Snapshot(subtitles) == kept && seen == TextSet(kept)
    requires Distinct(subtitles)
    ensures Snapshot(subtitles') == Dedup(Candidates(blocks[1..i + 1]))
    ensures seen' == TextSet(Dedup(Candidates(blocks[1..i + 1])))
    ensures Distinct(subtitles')
    ensures forall o :: o in subtitles' ==> o in subtitles || fresh(o)
  {
    ParseStep(blocks, i);
    subtitles', seen' := AddIfNew(Candidate(blocks[i]), subtitles, seen, kept);
  }

  /** `VTTParser.parse_subtitles` on the document's content: the records it
      returns are new, distinct, and hold the values `ParseCues(content)`. */
  method ParseSubtitles(content: string) returns (subtitles: seq<Subtitle>)
    ensures Snapshot(subtitles) == ParseCues(content)
    ensures forall o :: o in subtitles ==> fresh(o)
    ensures Distinct(subtitles)
  {
    var blocks := SplitBlocks(Strip(content));
    subtitles := [];
    var seen: set<string> := {};
    NoBlocksRead(blocks);
    for i := 1 to |blocks|
      invariant Snapshot(subtitles) == Dedup(Candidates(blocks[1..i]))
      invariant seen == TextSet(Dedup(Candidates(blocks[1..i])))
      invariant forall o :: o in subtitles ==> fresh(o)
      invariant Distinct(subtitles)
    {
      subtitles, seen := ReadBlock(blocks, i, subtitles, seen, Dedup(Candidates(blocks[1..i])));
    }
    AllBlocksRead(content, blocks);
  }

  /** Before the loop no block has been read. */
  lemma NoBlocksRead(blocks: seq<string>)
    requires |blocks| >= 1
    ensures Dedup(Candidates(blocks[1..1])) == []
  {
    assert blocks[1..1] == [];
  }

  /** After the loop every block but the header has been read. */
  lemma AllBlocksRead(content: string, blocks: seq<string>)
    requires blocks == SplitBlocks(Strip(content))
    ensures ParseCues(content) == Dedup(Candidates(blocks[1..|blocks|]))
  {
    WholeTail(blocks);
  }

  /** Slicing to the end is the same as slicing without an end. */
  lemma WholeTail<T>(s: seq<T>)
    requires |s| >= 1
    ensures s[1..|s|] == s[1..]
  {
  }
}
