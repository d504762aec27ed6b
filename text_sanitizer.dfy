/** The deterministic text clean-up of `TextSanitizer`: whitespace collapsing,
    end punctuation, capitalisation of the first character, masking of the
    profanity placeholder, and `sanitize`, which chains them on a subtitle
    record and then deletes the `&nbsp;` entity. */
module TextSanitizer {
  import opened PyStr
  import opened VttParser

  /** The placeholder auto-generated captions put in place of a bleeped word. */
  const ProfanityMask := "[ __ ]"
  const ProfanityMarker := "[profanity]"
  const NbspEntity := "&nbsp;"

  // ----------------------------------------------------- clean_whitespace

  /** No leading or trailing whitespace, and every whitespace character is a
      single plain space between two non-space characters. */
  predicate SingleSpaced(t: string) {
    && IsStripped(t)
    && (forall i :: 0 <= i < |t| && IsSpace(t[i]) ==> t[i] == ' ')
    && (forall i :: 0 <= i < |t| - 1 ==> !DoubleSpace(t, i))
  }

  /** Positions `i` and `i + 1` both hold whitespace. */
  predicate DoubleSpace(t: string, i: nat)
    requires i + 1 < |t|
  {
    IsSpace(t[i]) && IsSpace(t[i + 1])
  }

  /** `clean_whitespace`: the words of `t` joined by single spaces. The result
      is single-spaced, has exactly the words of `t` (so every run of
      whitespace between two words became one space), keeps every non-space
      character in order, and is empty exactly when `t` is all whitespace. */
  function CleanWhitespace(t: string): (r: string)
    ensures SingleSpaced(r)
    ensures Words(r) == Words(t)
    ensures r == "" <==> AllSpace(t)
    ensures NonSpace(r) == NonSpace(t)
  {
    var ws := Words(t);
    JoinWordsSingleSpaced(ws);
    JoinWordsNonSpace(ws);
    WordsKeepText(t);
    WordsOfJoin(ws);
    JoinWith(ws, " ")
  }

  /** Text that starts with a non-space character keeps it in front. */
  lemma CleanFirst(t: string)
    requires t != "" && !IsSpace(t[0])
    ensures CleanWhitespace(t) != "" && CleanWhitespace(t)[0] == t[0]
  {
    var k := WordEnd(t);
    var ws := Words(t);
    assert ws == [t[..k]] + Words(t[k..]);
    assert ws[0][0] == t[0];
    assert JoinWith(ws, " ")[0] == ws[0][0] by {
      if |ws| > 1 {
        assert JoinWith(ws, " ") == ws[0] + " " + JoinWith(ws[1..], " ");
      }
    }
  }

  /** Joining non-empty words with single spaces gives a single-spaced text
      that is empty exactly when there are no words. */
  lemma {:induction false} JoinWordsSingleSpaced(ws: seq<string>)
    requires forall k :: 0 <= k < |ws| ==> ws[k] != "" && NoSpace(ws[k])
    ensures SingleSpaced(JoinWith(ws, " "))
    ensures JoinWith(ws, " ") == "" <==> ws == []
    decreases |ws|
  {
    if |ws| >= 2 {
      var rest := JoinWith(ws[1..], " ");
      JoinWordsSingleSpaced(ws[1..]);
      var w := ws[0];
      var j := w + " " + rest;
      assert JoinWith(ws, " ") == j;
      forall i | 0 <= i < |j| && IsSpace(j[i])
        ensures j[i] == ' '
      {
        if i > |w| {
          assert j[i] == rest[i - |w| - 1];
        }
      }
      forall i | 0 <= i < |j| - 1
        ensures !DoubleSpace(j, i)
      {
        if i < |w| {
          assert j[i] == w[i];
        } else if i == |w| {
          assert j[i + 1] == rest[0];
        } else {
          assert j[i] == rest[i - |w| - 1] && j[i + 1] == rest[i - |w|];
          assert !DoubleSpace(rest, i - |w| - 1);
        }
      }
    }
  }

  /** Joining words with spaces keeps exactly their characters. */
  lemma {:induction false} JoinWordsNonSpace(ws: seq<string>)
    requires forall k :: 0 <= k < |ws| ==> NoSpace(ws[k])
    ensures NonSpace(JoinWith(ws, " ")) == Concat(ws)
    decreases |ws|
  {
    if |ws| == 1 {
      NonSpaceOfWord(ws[0]);
      assert Concat(ws) == ws[0] + Concat([]);
    } else if |ws| >= 2 {
      JoinWordsNonSpace(ws[1..]);
      NonSpaceOfWord(ws[0]);
      NonSpaceAppend(ws[0] + " ", JoinWith(ws[1..], " "));
      NonSpaceAppend(ws[0], " ");
    }
  }

  /** What follows a space of a single-spaced text is single-spaced and not
      empty. */
  lemma SingleSpacedAfter(t: string, k: nat)
    requires SingleSpaced(t) && k < |t| && IsSpace(t[k])
    ensures k + 1 < |t| && t[k] == ' '
    ensures SingleSpaced(t[k + 1..]) && t[k + 1..] != ""
  {
    var u := t[k + 1..];
    assert k + 1 < |t| && !DoubleSpace(t, k);
    assert u[0] == t[k + 1] && u[|u| - 1] == t[|t| - 1];
    forall i | 0 <= i < |u| && IsSpace(u[i])
      ensures u[i] == ' '
    {
      assert u[i] == t[k + 1 + i];
    }
    forall i | 0 <= i < |u| - 1
      ensures !DoubleSpace(u, i)
    {
      assert u[i] == t[k + 1 + i] && u[i + 1] == t[k + 2 + i];
      assert !DoubleSpace(t, k + 1 + i);
    }
  }

  /** The words of a single-spaced text are its space-separated pieces, so
      collapsing its whitespace gives it back. */
  lemma {:induction false} CleanSingleSpaced(t: string)
    requires SingleSpaced(t)
    ensures CleanWhitespace(t) == t
    decreases |t|
  {
    if t != "" {
      var k := WordEnd(t);
      var w := t[..k];
      assert k > 0;
      assert Words(t) == [w] + Words(t[k..]);
      if k < |t| {
        SingleSpacedAfter(t, k);
        var u := t[k + 1..];
        SplitAtSpace(t, k);
        assert Words(t[k..]) == Words(u);
        CleanSingleSpaced(u);
        assert Words(u) != [];
      } else {
        assert t[k..] == "" && t == w;
      }
    }
  }

  /** Text around a single space at `k`. */
  lemma SplitAtSpace(t: string, k: nat)
    requires k < |t| && t[k] == ' '
    ensures t[k..][1..] == t[k + 1..]
    ensures t == t[..k] + " " + t[k + 1..]
  {
  }

  /** `clean_whitespace` is idempotent. */
  lemma CleanWhitespaceIdempotent(t: string)
    ensures CleanWhitespace(CleanWhitespace(t)) == CleanWhitespace(t)
  {
    CleanSingleSpaced(CleanWhitespace(t));
  }

  // ----------------------------------------------------- add_punctuation

  predicate IsTerminal(c: char) {
    c == '.' || c == '!' || c == '?'
  }

  /** Non-empty and ending in `.`, `!` or `?`. */
  predicate EndsTerminal(t: string) {
    t != "" && IsTerminal(t[|t| - 1])
  }

  /** `add_punctuation`: a full stop is appended to non-empty text that does
      not already end in terminal punctuation. Empty text stays empty; any
      other result ends in terminal punctuation and extends `t`. */
  function AddPunctuation(t: string): (r: string)
    ensures t == "" ==> r == ""
    ensures t != "" ==> EndsTerminal(r)
    ensures StartsWith(r, t) && |r| <= |t| + 1
    ensures EndsTerminal(t) ==> r == t
    ensures t != "" && !IsTerminal(t[|t| - 1]) ==> r == t + "."
  {
    if t != "" && !IsTerminal(t[|t| - 1]) then t + "." else t
  }

  /** `add_punctuation` is idempotent. */
  lemma AddPunctuationIdempotent(t: string)
    ensures AddPunctuation(AddPunctuation(t)) == AddPunctuation(t)
  {
  }

  // ----------------------------------------------------- fix_capitalization

  predicate IsLower(c: char) {
    'a' <= c <= 'z'
  }

  /** `str.upper` on one ASCII character. */
  function Upper(c: char): (u: char)
    ensures !IsLower(u)
    ensures IsLower(c) ==> u as int == c as int - 32
    ensures !IsLower(c) ==> u == c
  {
    if IsLower(c) then (c as int - 32) as char else c
  }

  /** `fix_capitalization`: the first character upper-cased and the rest kept. */
  function FixCapitalization(t: string): (r: string)
    ensures |r| == |t|
    ensures t != "" ==> r[0] == Upper(t[0]) && r[1..] == t[1..]
  {
    if t == "" then t else [Upper(t[0])] + t[1..]
  }

  /** Capitalising the first character is idempotent and keeps terminal
      punctuation at the end. */
  lemma FixCapitalizationIdempotent(t: string)
    ensures FixCapitalization(FixCapitalization(t)) == FixCapitalization(t)
    ensures EndsTerminal(t) ==> EndsTerminal(FixCapitalization(t))
  {
    if t != "" {
      var r := FixCapitalization(t);
      assert r == [r[0]] + r[1..];
      if |t| == 1 && IsTerminal(t[0]) {
        assert r[0] == t[0];
      }
    }
  }

  // ----------------------------------------------------- fix_profanity

  /** `fix_profanity`: every placeholder is replaced by the marker, and none
      is left; text without a placeholder is unchanged. */
  function FixProfanity(t: string): (r: string)
    ensures !Occurs(r, ProfanityMask)
    ensures !Occurs(t, ProfanityMask) ==> r == t
  {
    MaskReplacementRemovesAll(t);
    assert !Occurs(t, ProfanityMask) ==> Replace(t, ProfanityMask, ProfanityMarker) == t by {
      if !Occurs(t, ProfanityMask) { ReplaceAbsent(t, ProfanityMask, ProfanityMarker); }
    }
    Replace(t, ProfanityMask, ProfanityMarker)
  }

  /** Each placeholder becomes the marker and the text around it is kept:
      pieces without `[` joined by placeholders come out joined by markers. */
  lemma FixProfanityMarks(parts: seq<string>)
    requires forall k :: 0 <= k < |parts| ==> '[' !in parts[k]
    ensures FixProfanity(JoinWith(parts, ProfanityMask)) == JoinWith(parts, ProfanityMarker)
  {
    assert ProfanityMask[0] == '[';
    ReplaceJoin(parts, ProfanityMask, ProfanityMarker);
  }

  /** The marker cannot form a new placeholder with what follows it, so no
      placeholder survives the replacement. */
  lemma MaskReplacementRemovesAll(t: string)
    ensures !Occurs(Replace(t, ProfanityMask, ProfanityMarker), ProfanityMask)
  {
    var pat, rep := ProfanityMask, ProfanityMarker;
    assert pat[1..] == " __ ]";
    forall i | 0 <= i < |rep|
      ensures !Restarts(rep, pat, i)
    {
      if i == 0 {
        assert rep[1] != pat[1];
      } else {
        assert rep[i] != pat[0];
      }
    }
    ReplaceRemovesAll(t, pat, rep);
  }

  // ----------------------------------------------------- sanitize

  /** The text `sanitize` stores: the four steps in order, then every
      `&nbsp;` deleted. Whitespace-only text becomes empty; any other text
      ends in terminal punctuation. */
  function SanitizeText(t: string): (r: string)
    ensures AllSpace(t) ==> r == ""
    ensures !AllSpace(t) ==> EndsTerminal(r)
  {
    var cleaned := CleanWhitespace(t);
    var punctuated := AddPunctuation(cleaned);
    var capitalised := FixCapitalization(punctuated);
    FixCapitalizationIdempotent(punctuated);
    var unmasked := FixProfanity(capitalised);
    var r := Replace(unmasked, NbspEntity, "");
    if capitalised == "" then r
    else ReplacementsKeepTerminal(capitalised); r
  }

  /** Terminal punctuation at the end survives both replacements. */
  lemma ReplacementsKeepTerminal(c: string)
    requires EndsTerminal(c)
    ensures var r := Replace(FixProfanity(c), NbspEntity, ""); EndsTerminal(r)
  {
    ReplaceKeepsLast(c, ProfanityMask, ProfanityMarker);
    ReplaceKeepsLast(FixProfanity(c), NbspEntity, "");
  }

  /** `sanitize`: the record's text is replaced by its sanitised form, its
      timing is kept, and the same record is returned. */
  method Sanitize(subtitle: Subtitle) returns (result: Subtitle)
    modifies subtitle
    ensures result == subtitle
    ensures subtitle.text == SanitizeText(old(subtitle.text))
    ensures subtitle.timing == old(subtitle.timing)
  {
    var text := subtitle.text;
    text := CleanWhitespace(text);
    text := AddPunctuation(text);
    text := FixCapitalization(text);
    text := FixProfanity(text);
    text := Replace(text, NbspEntity, "");
    subtitle.text := text;
    result := subtitle;
  }

  /** A lower-case first letter comes out as its capital: it survives the
      whitespace collapsing, and neither replacement touches a first
      character that is neither `[` nor `&`. */
  lemma SanitizeCapitalisesLowerFirst(t: string)
    requires t != "" && IsLower(t[0])
    ensures SanitizeText(t) != "" && SanitizeText(t)[0] == Upper(t[0])
  {
    CleanFirst(t);
    var punctuated := AddPunctuation(CleanWhitespace(t));
    assert punctuated[0] == t[0];
    var capitalised := FixCapitalization(punctuated);
    var c := Upper(t[0]);
    assert capitalised == [c] + capitalised[1..];
    ReplaceAfter([c], capitalised[1..], ProfanityMask, ProfanityMarker);
    var unmasked := FixProfanity(capitalised);
    assert unmasked == [c] + Replace(capitalised[1..], ProfanityMask, ProfanityMarker);
    ReplaceAfter([c], unmasked[1..], NbspEntity, "");
    assert unmasked == [c] + unmasked[1..];
  }

  /** Text without `&` holds no `&nbsp;` at any step, so the deletion does
      nothing and no placeholder is left. */
  lemma SanitizeWithoutAmpersand(t: string)
    requires '&' !in t
    ensures SanitizeText(t) == FixProfanity(FixCapitalization(AddPunctuation(CleanWhitespace(t))))
    ensures !Occurs(SanitizeText(t), ProfanityMask)
  {
    var cleaned := CleanWhitespace(t);
    NonSpaceMember(cleaned, '&');
    NonSpaceMember(t, '&');
    var punctuated := AddPunctuation(cleaned);
    assert '&' !in punctuated;
    var capitalised := FixCapitalization(punctuated);
    assert '&' !in capitalised by {
      if capitalised != "" {
        assert capitalised == [capitalised[0]] + punctuated[1..];
      }
    }
    var unmasked := FixProfanity(capitalised);
    ReplaceKeepsOut(capitalised, ProfanityMask, ProfanityMarker, '&');
    AbsentFirst(unmasked, NbspEntity);
    ReplaceAbsent(unmasked, NbspEntity, "");
  }

  /** Text without the pattern's first character does not hold the pattern. */
  lemma AbsentFirst(t: string, pat: string)
    requires pat != "" && pat[0] !in t
    ensures !Occurs(t, pat)
  {
    forall i | 0 <= i <= |t| ensures !ContainsAt(t, pat, i) {
      if i + |pat| <= |t| {
        assert t[i..i + |pat|][0] != pat[0];
      }
    }
  }

  /** The steps before the `&nbsp;` deletion leave text that is already
      single-spaced, free of placeholders and capitalised alone, apart from a
      final full stop. */
  lemma SanitizeBeforeDeletion(t: string)
    requires SingleSpaced(t) && t != "" && !IsLower(t[0]) && !IsTerminal(t[|t| - 1])
    requires !Occurs(t + ".", ProfanityMask)
    ensures SanitizeText(t) == Replace(t + ".", NbspEntity, "")
  {
    CleanSingleSpaced(t);
    var p := t + ".";
    assert AddPunctuation(t) == p;
    CapitalisedUnchanged(p);
    assert FixProfanity(p) == p;
  }

  /** Text that does not start with a lower-case letter is already
      capitalised. */
  lemma CapitalisedUnchanged(p: string)
    requires p != "" && !IsLower(p[0])
    ensures FixCapitalization(p) == p
  {
    assert p == [p[0]] + p[1..];
  }

  /** Deleting the entity from `&nbsp; a` with its full stop leaves ` a.`. */
  lemma LeadingEntityDeleted(t: string)
    requires t == "&nbsp; a"
    ensures Replace(t + ".", NbspEntity, "") == " a."
  {
    var p := t + ".";
    assert p == "&nbsp; a.";
    assert StartsWith(p, NbspEntity) && p[|NbspEntity|..] == " a.";
    ReplaceFront(p, NbspEntity, "");
  }

  /** `&nbsp; a` passes the steps before the deletion unchanged but for a
      final full stop. */
  lemma LeadingEntityExample(t: string)
    requires t == "&nbsp; a"
    ensures SingleSpaced(t) && !IsLower(t[0]) && !IsTerminal(t[|t| - 1])
    ensures !Occurs(t + ".", ProfanityMask)
  {
    assert !DoubleSpace(t, 5) && !DoubleSpace(t, 6);
    AbsentFirst(t + ".", ProfanityMask);
  }

  /** Sanitising `&nbsp; a` leaves a leading space and a lower-case first
      letter: `&nbsp;` is deleted only after the whitespace is collapsed and
      the first character capitalised. */
  lemma SanitizeLeavesLeadingSpace(t: string)
    requires t == "&nbsp; a"
    ensures SanitizeText(t) == " a."
  {
    LeadingEntityExample(t);
    SanitizeBeforeDeletion(t);
    LeadingEntityDeleted(t);
  }

  /** Collapsing the whitespace of ` a.` drops the leading space. */
  lemma CleanLeadingSpace(u: string)
    requires u == " a."
    ensures CleanWhitespace(u) == "a."
  {
    assert Words(u) == Words(u[1..]);
    assert u[1..] == "a.";
    CleanSingleSpaced("a.");
  }

  /** A second pass over ` a.` strips and capitalises it. */
  lemma SanitizeSecondPass(u: string)
    requires u == " a."
    ensures SanitizeText(u) == "A."
  {
    CleanLeadingSpace(u);
    AbsentFirst("A.", ProfanityMask);
    ReplaceAbsent("A.", ProfanityMask, ProfanityMarker);
  }

  /** Sanitising is not idempotent, and its result need not be stripped. */
  lemma SanitizeNotIdempotent(t: string)
    requires t == "&nbsp; a"
    ensures SanitizeText(SanitizeText(t)) != SanitizeText(t)
    ensures !IsStripped(SanitizeText(t))
  {
    SanitizeLeavesLeadingSpace(t);
    SanitizeSecondPass(SanitizeText(t));
  }

  /** The text has no placeholder although it has the pieces of one. */
  lemma SplitMaskAbsent(t: string)
    requires t == "[ _&nbsp;_ ]"
    ensures !Occurs(t + ".", ProfanityMask)
  {
    var p := t + ".";
    assert p == "[ _&nbsp;_ ].";
    forall i | 0 <= i <= |p| ensures !ContainsAt(p, ProfanityMask, i) {
      if i + |ProfanityMask| <= |p| {
        var w := p[i..i + |ProfanityMask|];
        if i == 0 {
          assert w[3] == '&' != ProfanityMask[3];
        } else {
          assert w[0] == p[i] != '[';
        }
      }
    }
  }

  /** Deleting the entity between the two underscores of `[ _&nbsp;_ ]`
      with its full stop joins them. */
  lemma InnerEntityDeleted(t: string)
    requires t == "[ _&nbsp;_ ]"
    ensures Replace(t + ".", NbspEntity, "") == "[ __ ]."
  {
    var p := t + ".";
    assert p == "[ _&nbsp;_ ].";
    var q := p[3..];
    assert p == "[ _" + q;
    ReplaceAfter("[ _", q, NbspEntity, "");
    assert StartsWith(q, NbspEntity) && q[|NbspEntity|..] == "_ ].";
    ReplaceFront(q, NbspEntity, "");
  }

  /** Deleting `&nbsp;` after the profanity step can bring a placeholder
      together, so sanitised text may still hold one. */
  lemma SanitizeCanLeaveMask(t: string)
    requires t == "[ _&nbsp;_ ]"
    ensures SanitizeText(t) == "[ __ ]."
    ensures Occurs(SanitizeText(t), ProfanityMask)
  {
    SplitMaskPrepared(t);
    SplitMaskAbsent(t);
    SanitizeBeforeDeletion(t);
    InnerEntityDeleted(t);
    JoinedMaskOccurs(SanitizeText(t));
  }

  /** The text with the entity inside the placeholder meets the conditions of
      `SanitizeBeforeDeletion`. */
  lemma SplitMaskPrepared(t: string)
    requires t == "[ _&nbsp;_ ]"
    ensures SingleSpaced(t) && t != "" && !IsLower(t[0]) && !IsTerminal(t[|t| - 1])
  {
    forall i | 0 <= i < |t| && IsSpace(t[i]) ensures t[i] == ' ' {
      assert i == 1 || i == 10;
    }
    forall i | 0 <= i < |t| - 1 ensures !DoubleSpace(t, i) {
      assert t[i] != ' ' || t[i + 1] != ' ';
    }
  }

  /** The placeholder stands at the front of `[ __ ].`. */
  lemma JoinedMaskOccurs(r: string)
    requires r == "[ __ ]."
    ensures Occurs(r, ProfanityMask)
  {
    assert r[0..|ProfanityMask|] == ProfanityMask;
    assert ContainsAt(r, ProfanityMask, 0);
  }

  /** The deletion runs once, so removing one entity can bring another
      together: `&nb&nbsp;sp;` sanitises to `&nbsp;.`, which still holds the
      entity. */
  lemma SanitizeCanLeaveEntity(t: string)
    requires t == "&nb&nbsp;sp;"
    ensures SanitizeText(t) == "&nbsp;."
    ensures Occurs(SanitizeText(t), NbspEntity)
  {
    SplitEntityPrepared(t);
    SanitizeBeforeDeletion(t);
    SplitEntityDeleted(t);
    assert ContainsAt(SanitizeText(t), NbspEntity, 0);
  }

  /** `&nb&nbsp;sp;` has no whitespace, does not start lower-case, does
      not end in terminal punctuation and holds no placeholder. */
  lemma SplitEntityPrepared(t: string)
    requires t == "&nb&nbsp;sp;"
    ensures SingleSpaced(t) && t != "" && !IsLower(t[0]) && !IsTerminal(t[|t| - 1])
    ensures !Occurs(t + ".", ProfanityMask)
  {
    assert forall i :: 0 <= i < |t| ==> !IsSpace(t[i]);
    assert '[' !in t + ".";
    AbsentFirst(t + ".", ProfanityMask);
  }

  /** Deleting the inner entity of `&nb&nbsp;sp;` with its full stop joins
      its pieces into a new one. */
  lemma SplitEntityDeleted(t: string)
    requires t == "&nb&nbsp;sp;"
    ensures Replace(t + ".", NbspEntity, "") == "&nbsp;."
  {
    var p := t + ".";
    assert p[..|NbspEntity|][4] != NbspEntity[4];
    assert p[..3] == "&nb";
    EntityFirstKept(p);
    var q := p[3..];
    assert StartsWith(q, NbspEntity) && q[|NbspEntity|..] == "sp;.";
    ReplaceFront(q, NbspEntity, "");
    AbsentFirst("sp;.", NbspEntity);
    ReplaceAbsent("sp;.", NbspEntity, "");
  }

  /** When no entity starts at a leading `&nb`, those three characters are
      kept and deletion goes on after them. */
  lemma EntityFirstKept(p: string)
    requires |p| >= |NbspEntity| && !StartsWith(p, NbspEntity) && p[..3] == "&nb"
    ensures Replace(p, NbspEntity, "") == "&nb" + Replace(p[3..], NbspEntity, "")
  {
    var r := Replace(p[3..], NbspEntity, "");
    assert Replace(p, NbspEntity, "") == [p[0]] + Replace(p[1..], NbspEntity, "");
    assert p[1..] == p[1..3] + p[3..] && p[1..3] == "nb";
    ReplaceAfter("nb", p[3..], NbspEntity, "");
    assert [p[0]] + "nb" == "&nb";
    AppendAssoc([p[0]], "nb", r);
  }
}
