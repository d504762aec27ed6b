/** Models of the Python `str` built-ins the caption pipeline relies on:
    `isspace`, `strip`, `startswith`, `sep.join`, `split(sep)`, `split()` and `replace`.
    Whitespace and case are restricted to ASCII. */
module PyStr {

  /** `c.isspace()` for an ASCII character: space, \t \n \v \f \r and the
      separators \x1c..\x1f. */
  predicate IsSpace(c: char) {
    c == ' ' || 9 <= c as int <= 13 || 28 <= c as int <= 31
  }

  predicate AllSpace(s: string) {
    forall i :: 0 <= i < |s| ==> IsSpace(s[i])
  }

  predicate NoSpace(s: string) {
    forall i :: 0 <= i < |s| ==> !IsSpace(s[i])
  }

  /** Neither the first nor the last character is whitespace. */
  predicate IsStripped(s: string) {
    s == "" || (!IsSpace(s[0]) && !IsSpace(s[|s| - 1]))
  }

  /** `s.startswith(prefix)` */
  predicate StartsWith(s: string, prefix: string) {
    |prefix| <= |s| && s[..|prefix|] == prefix
  }

  /** `s` holds `pat` starting at index `i`. */
  predicate ContainsAt(s: string, pat: string, i: int) {
    0 <= i && i + |pat| <= |s| && s[i..i + |pat|] == pat
  }

  predicate Occurs(s: string, pat: string) {
    exists i | 0 <= i <= |s| :: ContainsAt(s, pat, i)
  }

  // ---------------------------------------------------------------- strip

  /** The first position at or after `i` that does not hold whitespace, or
      `|s|` when there is none. */
  function SkipSpace(s: string, i: nat): (k: nat)
    requires i <= |s|
    ensures i <= k <= |s|
    ensures forall j :: i <= j < k ==> IsSpace(s[j])
    ensures k < |s| ==> !IsSpace(s[k])
    decreases |s| - i
  {
    if i < |s| && IsSpace(s[i]) then SkipSpace(s, i + 1) else i
  }

  /** The end of `s[..j]` once its trailing whitespace is dropped. */
  function SkipSpaceBack(s: string, j: nat): (k: nat)
    requires j <= |s|
    ensures k <= j
    ensures forall i :: k <= i < j ==> IsSpace(s[i])
    ensures k > 0 ==> !IsSpace(s[k - 1])
    decreases j
  {
    if j > 0 && IsSpace(s[j - 1]) then SkipSpaceBack(s, j - 1) else j
  }

  /** `s.lstrip()` */
  function TrimStart(s: string): (r: string)
    ensures |r| <= |s| && r == s[|s| - |r|..]
    ensures AllSpace(s[..|s| - |r|])
    ensures r == "" || !IsSpace(r[0])
  {
    var k := SkipSpace(s, 0);
    assert AllSpace(s[..k]) by {
      forall i | 0 <= i < k ensures IsSpace(s[..k][i]) {
        assert s[..k][i] == s[i];
      }
    }
    s[k..]
  }

  /** `s.rstrip()` */
  function TrimEnd(s: string): (r: string)
    ensures |r| <= |s| && r == s[..|r|]
    ensures AllSpace(s[|r|..])
    ensures r == "" || !IsSpace(r[|r| - 1])
  {
    var k := SkipSpaceBack(s, |s|);
    assert AllSpace(s[k..]) by {
      forall i | 0 <= i < |s| - k ensures IsSpace(s[k..][i]) {
        assert s[k..][i] == s[k + i];
      }
    }
    s[..k]
  }

  /** `s.strip()`: the result has no surrounding whitespace, and it is empty
      exactly when `s` is all whitespace. */
  function Strip(s: string): (r: string)
    ensures IsStripped(r)
    ensures r == "" <==> AllSpace(s)
  {
    var t := TrimStart(s);
    StripEmpty(s);
    var r := TrimEnd(t);
    assert r != "" ==> r[0] == t[0];
    r
  }

  /** Trimming both ends empties the text exactly when it is all whitespace. */
  lemma StripEmpty(s: string)
    ensures TrimEnd(TrimStart(s)) == "" <==> AllSpace(s)
  {
    var k := SkipSpace(s, 0);
    if k == |s| {
      assert forall i :: 0 <= i < |s| ==> IsSpace(s[i]);
    } else {
      var t := s[k..];
      TrimEndKeeps(t, 1);
      assert t[0] == s[k];
    }
  }

  /** Stripping text that is already stripped changes nothing. */
  lemma StripStripped(s: string)
    requires IsStripped(s)
    ensures Strip(s) == s
  {
    assert SkipSpace(s, 0) == 0;
    assert s[0..] == s;
    assert SkipSpaceBack(s, |s|) == |s|;
    assert s[..|s|] == s;
  }

  /** Stripping a non-empty stripped text followed by whitespace yields that text. */
  lemma StripTrailing(a: string, w: string)
    requires a != "" && IsStripped(a) && AllSpace(w)
    ensures Strip(a + w) == a
  {
    var s := a + w;
    assert s[0] == a[0];
    assert SkipSpace(s, 0) == 0;
    assert s[0..] == s;
    TrimEndTrailing(a, w);
  }

  /** Right-stripping never removes a non-space character or anything before it. */
  lemma TrimEndKeeps(s: string, k: nat)
    requires 0 < k <= |s| && !IsSpace(s[k - 1])
    ensures |TrimEnd(s)| >= k
  {
    assert SkipSpaceBack(s, |s|) >= k;
  }

  /** Stripping a text that begins with a stripped, non-empty part keeps that part. */
  lemma StripKeepsPrefix(a: string, x: string)
    requires a != "" && IsStripped(a)
    ensures StartsWith(Strip(a + x), a)
  {
    var s := a + x;
    assert s[0] == a[0];
    assert SkipSpace(s, 0) == 0;
    assert s[0..] == s;
    assert s[|a| - 1] == a[|a| - 1];
    TrimEndKeeps(s, |a|);
    assert TrimEnd(s)[..|a|] == s[..|a|] == a;
  }

  /** Right-stripping a text that ends in a non-space character, followed by
      whitespace, gives back that text. */
  lemma TrimEndTrailing(a: string, w: string)
    requires a != "" && !IsSpace(a[|a| - 1]) && AllSpace(w)
    ensures TrimEnd(a + w) == a
  {
    var s := a + w;
    var k := SkipSpaceBack(s, |s|);
    assert s[|a| - 1] == a[|a| - 1];
    assert forall i :: |a| <= i < |s| ==> s[i] == w[i - |a|];
    assert k == |a|;
    assert s[..k] == a;
  }

  // ---------------------------------------------------------------- join

  /** `sep.join(parts)` */
  function JoinWith(parts: seq<string>, sep: string): string
  {
    if |parts| == 0 then ""
    else if |parts| == 1 then parts[0]
    else parts[0] + sep + JoinWith(parts[1..], sep)
  }

  /** Joining one more part appends the separator and that part. */
  lemma {:induction false} JoinSnoc(parts: seq<string>, last: string, sep: string)
    requires |parts| > 0
    ensures JoinWith(parts + [last], sep) == JoinWith(parts, sep) + sep + last
    decreases |parts|
  {
    if |parts| == 1 {
      assert parts + [last] == [parts[0], last];
    } else {
      assert (parts + [last])[1..] == parts[1..] + [last];
      JoinSnoc(parts[1..], last, sep);
    }
  }

  /** A join of parts whose last part is not empty ends in that part's last
      character. */
  lemma {:induction false} JoinLastChar(parts: seq<string>, sep: string)
    requires |parts| > 0 && parts[|parts| - 1] != ""
    ensures var j := JoinWith(parts, sep);
      j != "" && j[|j| - 1] == parts[|parts| - 1][|parts[|parts| - 1]| - 1]
    decreases |parts|
  {
    if |parts| > 1 {
      JoinLastChar(parts[1..], sep);
    }
  }

  // ---------------------------------------------------------------- split(sep)

  /** `s.split(sep)` for a one-character separator: never empty, no piece holds
      the separator, and joining the pieces with the separator gives `s` back. */
  function SplitOn(s: string, sep: char): (r: seq<string>)
    ensures |r| >= 1
    ensures forall k :: 0 <= k < |r| ==> sep !in r[k]
    ensures JoinWith(r, [sep]) == s
    decreases |s|
  {
    if s == "" then [""]
    else
      var rest := SplitOn(s[1..], sep);
      if s[0] == sep then
        assert s == [sep] + s[1..];
        [""] + rest
      else
        var r := [[s[0]] + rest[0]] + rest[1..];
        assert |rest| > 1 ==> JoinWith(rest, [sep]) == rest[0] + [sep] + JoinWith(rest[1..], [sep]);
        assert s == [s[0]] + s[1..];
        r
  }

  /** A separator-free prefix is glued onto the first piece. */
  lemma {:induction false} SplitOnPrefix(w: string, s: string, sep: char)
    requires sep !in w
    ensures SplitOn(w + s, sep) == [w + SplitOn(s, sep)[0]] + SplitOn(s, sep)[1..]
    decreases |w|
  {
    if w == "" {
      assert w + s == s;
      assert SplitOn(s, sep) == [SplitOn(s, sep)[0]] + SplitOn(s, sep)[1..];
      assert w + SplitOn(s, sep)[0] == SplitOn(s, sep)[0];
    } else {
      assert (w + s)[1..] == w[1..] + s;
      assert (w + s)[0] == w[0];
      SplitOnPrefix(w[1..], s, sep);
      assert [w[0]] + (w[1..] + SplitOn(s, sep)[0]) == w + SplitOn(s, sep)[0];
    }
  }

  /** A leading separator splits off an empty first piece. */
  lemma SplitOnLeadingSep(s: string, sep: char)
    ensures SplitOn([sep] + s, sep) == [""] + SplitOn(s, sep)
  {
    assert ([sep] + s)[1..] == s;
  }

  /** A separator-free piece, a separator, then text that splits into `tail`. */
  lemma SplitOnCons(piece: string, rest: string, tail: seq<string>, sep: char)
    requires sep !in piece && SplitOn(rest, sep) == tail
    ensures SplitOn(piece + [sep] + rest, sep) == [piece] + tail
  {
    assert (piece + [sep]) + rest == piece + ([sep] + rest);
    assert piece + "" == piece;
    SplitOnLeadingSep(rest, sep);
    SplitOnPrefix(piece, [sep] + rest, sep);
  }

  /** Concatenation is associative. */
  lemma AppendAssoc(a: string, b: string, c: string)
    ensures (a + b) + c == a + (b + c)
  {
  }

  /** Splitting undoes joining when no part holds the separator. */
  lemma {:induction false} SplitOnJoin(parts: seq<string>, sep: char)
    requires |parts| >= 1
    requires forall k :: 0 <= k < |parts| ==> sep !in parts[k]
    ensures SplitOn(JoinWith(parts, [sep]), sep) == parts
    decreases |parts|
  {
    if |parts| == 1 {
      SplitOnPrefix(parts[0], "", sep);
      assert parts[0] + "" == parts[0];
    } else {
      SplitOnJoin(parts[1..], sep);
      SplitOnCons(parts[0], JoinWith(parts[1..], [sep]), parts[1..], sep);
      assert parts == [parts[0]] + parts[1..];
    }
  }

  // ---------------------------------------------------------------- split()

  /** Length of the leading run of non-whitespace characters. */
  function WordEnd(s: string): (k: nat)
    ensures k <= |s|
    ensures k < |s| ==> IsSpace(s[k])
    ensures NoSpace(s[..k])
    decreases |s|
  {
    if s == "" || IsSpace(s[0]) then 0
    else
      var k := 1 + WordEnd(s[1..]);
      assert s[..k] == [s[0]] + s[1..][..k - 1];
      k
  }

  /** `s.split()`: the maximal runs of non-whitespace characters, in order.
      Every word is non-empty and whitespace-free, and there are none exactly
      when `s` is all whitespace. */
  function Words(s: string): (r: seq<string>)
    ensures forall k :: 0 <= k < |r| ==> r[k] != "" && NoSpace(r[k])
    ensures r == [] <==> AllSpace(s)
    decreases |s|
  {
    if s == "" then []
    else if IsSpace(s[0]) then
      var r := Words(s[1..]);
      assert AllSpace(s) <==> AllSpace(s[1..]) by {
        if AllSpace(s[1..]) {
          forall i | 0 <= i < |s| ensures IsSpace(s[i]) {
            if i > 0 { assert s[i] == s[1..][i - 1]; }
          }
        }
      }
      r
    else
      var k := WordEnd(s);
      [s[..k]] + Words(s[k..])
  }

  /** A non-empty run without whitespace is a single word. */
  lemma WordsOfWord(w: string)
    requires w != "" && NoSpace(w)
    ensures Words(w) == [w]
  {
    var k := WordEnd(w);
    assert k == |w|;
    assert w[..k] == w && w[k..] == "";
  }

  /** Leading whitespace produces no word. */
  lemma {:induction false} WordsSkipSpace(g: string, b: string)
    requires AllSpace(g)
    ensures Words(g + b) == Words(b)
    decreases |g|
  {
    if g == "" {
      assert g + b == b;
    } else {
      var s := g + b;
      assert s[0] == g[0];
      assert s[1..] == g[1..] + b;
      assert AllSpace(g[1..]) by {
        forall i | 0 <= i < |g| - 1 ensures IsSpace(g[1..][i]) {
          assert g[1..][i] == g[i + 1];
        }
      }
      WordsSkipSpace(g[1..], b);
    }
  }

  /** A word followed by a run of whitespace is split off as the first word,
      and the whole run is dropped with it. */
  lemma WordsSplit(a: string, g: string, b: string)
    requires a != "" && NoSpace(a) && g != "" && AllSpace(g)
    ensures Words(a + g + b) == [a] + Words(b)
  {
    var s := a + g + b;
    assert forall i :: 0 <= i < |a| ==> s[i] == a[i];
    assert s[|a|] == g[0];
    var k := WordEnd(s);
    assert IsSpace(s[|a|]);
    assert k == |a|;
    assert s[..k] == a;
    assert s[k..] == g + b;
    WordsSkipSpace(g, b);
  }

  /** Splitting words joined by single spaces gives the words back. */
  lemma {:induction false} WordsOfJoin(ws: seq<string>)
    requires forall k :: 0 <= k < |ws| ==> ws[k] != "" && NoSpace(ws[k])
    ensures Words(JoinWith(ws, " ")) == ws
    decreases |ws|
  {
    if |ws| == 1 {
      WordsOfWord(ws[0]);
    } else if |ws| >= 2 {
      WordsOfJoin(ws[1..]);
      WordsSplit(ws[0], " ", JoinWith(ws[1..], " "));
      assert ws == [ws[0]] + ws[1..];
    }
  }

  /** The characters of `s` that are not whitespace, in order. */
  function NonSpace(s: string): string
    decreases |s|
  {
    if s == "" then ""
    else (if IsSpace(s[0]) then "" else [s[0]]) + NonSpace(s[1..])
  }

  lemma {:induction false} NonSpaceAppend(a: string, b: string)
    ensures NonSpace(a + b) == NonSpace(a) + NonSpace(b)
    decreases |a|
  {
    if a == "" {
      assert a + b == b;
    } else {
      assert (a + b)[0] == a[0];
      assert (a + b)[1..] == a[1..] + b;
      NonSpaceAppend(a[1..], b);
    }
  }

  lemma {:induction false} NonSpaceOfWord(w: string)
    requires NoSpace(w)
    ensures NonSpace(w) == w
    decreases |w|
  {
    if w != "" {
      NonSpaceOfWord(w[1..]);
    }
  }

  /** A non-space character occurs in `s` exactly when it survives among
      the non-space characters of `s`. */
  lemma {:induction false} NonSpaceMember(s: string, c: char)
    requires !IsSpace(c)
    ensures c in NonSpace(s) <==> c in s
    decreases |s|
  {
    if s != "" {
      NonSpaceMember(s[1..], c);
      assert s == [s[0]] + s[1..];
    }
  }

  /** The words of `s`, concatenated. */
  function Concat(ws: seq<string>): string
  {
    if ws == [] then "" else ws[0] + Concat(ws[1..])
  }

  /** Splitting into words loses exactly the whitespace. */
  lemma {:induction false} WordsKeepText(s: string)
    ensures Concat(Words(s)) == NonSpace(s)
    decreases |s|
  {
    if s == "" {
    } else if IsSpace(s[0]) {
      WordsKeepText(s[1..]);
    } else {
      var k := WordEnd(s);
      WordsKeepText(s[k..]);
      assert s == s[..k] + s[k..];
      NonSpaceAppend(s[..k], s[k..]);
      NonSpaceOfWord(s[..k]);
      assert Words(s) == [s[..k]] + Words(s[k..]);
    }
  }

  // ---------------------------------------------------------------- replace

  /** `s.replace(pat, rep)`: occurrences are found left to right and do not
      overlap; the text between them is kept. */
  function Replace(s: string, pat: string, rep: string): string
    requires pat != ""
    decreases |s|
  {
    if |s| < |pat| then s
    else if s[..|pat|] == pat then rep + Replace(s[|pat|..], pat, rep)
    else [s[0]] + Replace(s[1..], pat, rep)
  }

  /** Text without the pattern is left as it is. */
  lemma {:induction false} ReplaceAbsent(s: string, pat: string, rep: string)
    requires pat != "" && !Occurs(s, pat)
    ensures Replace(s, pat, rep) == s
    decreases |s|
  {
    if |s| >= |pat| {
      assert !ContainsAt(s, pat, 0);
      forall i | 0 <= i <= |s| - 1 && i + |pat| <= |s| - 1 ensures !ContainsAt(s[1..], pat, i) {
        assert s[1..][i..i + |pat|] == s[i + 1..i + 1 + |pat|];
        assert !ContainsAt(s, pat, i + 1);
      }
      ReplaceAbsent(s[1..], pat, rep);
    }
  }

  /** Replacing never introduces a character that neither the text nor the
      replacement holds. */
  lemma {:induction false} ReplaceKeepsOut(s: string, pat: string, rep: string, c: char)
    requires pat != "" && c !in s && c !in rep
    ensures c !in Replace(s, pat, rep)
    decreases |s|
  {
    if |s| < |pat| {
    } else if s[..|pat|] == pat {
      assert s == s[..|pat|] + s[|pat|..];
      ReplaceKeepsOut(s[|pat|..], pat, rep, c);
    } else {
      assert s == [s[0]] + s[1..];
      ReplaceKeepsOut(s[1..], pat, rep, c);
    }
  }

  /** A prefix without the pattern's first character is copied unchanged. */
  lemma {:induction false} ReplaceAfter(pre: string, s: string, pat: string, rep: string)
    requires pat != "" && pat[0] !in pre
    ensures Replace(pre + s, pat, rep) == pre + Replace(s, pat, rep)
    decreases |pre|
  {
    if pre != "" {
      var t := pre + s;
      assert t[0] == pre[0] && t[1..] == pre[1..] + s;
      ReplaceAfter(pre[1..], s, pat, rep);
      if |t| >= |pat| {
        assert t[..|pat|][0] != pat[0];
      } else {
        assert Replace(s, pat, rep) == s;
      }
    } else {
      assert pre + s == s;
    }
  }

  /** `pat.join(parts).replace(pat, rep) == rep.join(parts)` when no part
      holds the pattern's first character: every occurrence becomes `rep` and
      the text between occurrences is kept. */
  lemma {:induction false} ReplaceJoin(parts: seq<string>, pat: string, rep: string)
    requires pat != ""
    requires forall k :: 0 <= k < |parts| ==> pat[0] !in parts[k]
    ensures Replace(JoinWith(parts, pat), pat, rep) == JoinWith(parts, rep)
    decreases |parts|
  {
    if |parts| == 1 {
      ReplaceAfter(parts[0], "", pat, rep);
      assert parts[0] + "" == parts[0];
    } else if |parts| >= 2 {
      var p := parts[0];
      var rest := JoinWith(parts[1..], pat);
      assert p + pat + rest == p + (pat + rest);
      ReplaceAfter(p, pat + rest, pat, rep);
      assert (pat + rest)[|pat|..] == rest;
      ReplaceFront(pat + rest, pat, rep);
      ReplaceJoin(parts[1..], pat, rep);
      assert p + rep + JoinWith(parts[1..], rep) == p + (rep + JoinWith(parts[1..], rep));
    }
  }

  /** An occurrence at the front is replaced and the rest is processed. */
  lemma ReplaceFront(s: string, pat: string, rep: string)
    requires pat != "" && StartsWith(s, pat)
    ensures Replace(s, pat, rep) == rep + Replace(s[|pat|..], pat, rep)
  {
  }

  /** When the text's last character differs from the pattern's, replacing
      keeps that last character at the end. */
  lemma {:induction false} ReplaceKeepsLast(s: string, pat: string, rep: string)
    requires pat != "" && s != "" && s[|s| - 1] != pat[|pat| - 1]
    ensures var r := Replace(s, pat, rep); r != "" && r[|r| - 1] == s[|s| - 1]
    decreases |s|
  {
    if |s| < |pat| {
    } else if s[..|pat|] == pat {
      ReplaceKeepsLast(s[|pat|..], pat, rep);
    } else if |s| > 1 {
      ReplaceKeepsLast(s[1..], pat, rep);
    } else {
      assert s[1..] == "";
    }
  }

  /** If the replaced text begins with `w`, and `w` does not hold the first
      character of the pattern (with which `rep` starts), the original text
      began with `w` too. */
  lemma {:induction false} ReplacePrefixBack(x: string, w: string, pat: string, rep: string)
    requires pat != "" && rep != "" && rep[0] == pat[0]
    requires pat[0] !in w
    requires StartsWith(Replace(x, pat, rep), w)
    ensures StartsWith(x, w)
    decreases |w|
  {
    if w != "" && |x| >= |pat| {
      var r := Replace(x, pat, rep);
      assert r[..|w|][0] == w[0];
      assert r[0] != pat[0];
      assert x[..|pat|] != pat;
      assert r == [x[0]] + Replace(x[1..], pat, rep);
      assert StartsWith(Replace(x[1..], pat, rep), w[1..]) by {
        assert r[1..][..|w| - 1] == r[..|w|][1..];
      }
      ReplacePrefixBack(x[1..], w[1..], pat, rep);
      assert x[..|w|] == [x[0]] + x[1..][..|w| - 1];
      assert w == [w[0]] + w[1..];
    }
  }

  /** Position `i` of `rep` holds the pattern's first character and is not
      followed by something other than its second. */
  predicate Restarts(rep: string, pat: string, i: nat)
    requires i < |rep| && |pat| >= 2
  {
    rep[i] == pat[0] && (i + 1 == |rep| || rep[i + 1] == pat[1])
  }

  /** A replacement that cannot restart the pattern, followed by text free
      of the pattern, is free of it. */
  lemma NoMatchAfterReplacement(rep: string, tail: string, pat: string)
    requires |pat| >= 2 && rep != ""
    requires forall i :: 0 <= i < |rep| ==> !Restarts(rep, pat, i)
    requires !Occurs(tail, pat)
    ensures !Occurs(rep + tail, pat)
  {
    var r := rep + tail;
    forall i | 0 <= i <= |r| && i + |pat| <= |r| ensures !ContainsAt(r, pat, i) {
      if i < |rep| {
        if rep[i] == pat[0] {
          assert !Restarts(rep, pat, i);
          assert r[i..i + |pat|][1] == rep[i + 1];
        } else {
          assert r[i..i + |pat|][0] == rep[i];
        }
      } else {
        assert tail[i - |rep|..i - |rep| + |pat|] == r[i..i + |pat|];
        assert !ContainsAt(tail, pat, i - |rep|);
      }
    }
  }

  /** A character kept because no match starts at it, followed by the
      pattern-free replacement of the rest, leaves no match. */
  lemma NoMatchAfterKept(s: string, pat: string, rep: string)
    requires |pat| >= 2 && rep != "" && rep[0] == pat[0]
    requires pat[0] !in pat[1..]
    requires |s| >= |pat| && s[..|pat|] != pat
    requires !Occurs(Replace(s[1..], pat, rep), pat)
    ensures !Occurs([s[0]] + Replace(s[1..], pat, rep), pat)
  {
    var tail := Replace(s[1..], pat, rep);
    NoMatchAtKept(s, pat, rep);
    NoMatchAfterChar(s[0], tail, pat);
  }

  /** No match starts at a kept character. */
  lemma NoMatchAtKept(s: string, pat: string, rep: string)
    requires |pat| >= 2 && rep != "" && rep[0] == pat[0]
    requires pat[0] !in pat[1..]
    requires |s| >= |pat| && s[..|pat|] != pat
    ensures !ContainsAt([s[0]] + Replace(s[1..], pat, rep), pat, 0)
  {
    var tail := Replace(s[1..], pat, rep);
    var r := [s[0]] + tail;
    if ContainsAt(r, pat, 0) {
      assert r[..|pat|] == [s[0]] + tail[..|pat| - 1];
      assert StartsWith(tail, pat[1..]);
      assert s[..|pat|] == [s[0]] + s[1..][..|pat| - 1];
      ReplacePrefixBack(s[1..], pat[1..], pat, rep);
    }
  }

  /** A character in front of pattern-free text can only start a match
      itself. */
  lemma NoMatchAfterChar(c: char, tail: string, pat: string)
    requires pat != "" && !Occurs(tail, pat)
    requires !ContainsAt([c] + tail, pat, 0)
    ensures !Occurs([c] + tail, pat)
  {
    var r := [c] + tail;
    forall i | 1 <= i <= |r| && i + |pat| <= |r| ensures !ContainsAt(r, pat, i) {
      assert tail[i - 1..i - 1 + |pat|] == r[i..i + |pat|];
      assert !ContainsAt(tail, pat, i - 1);
    }
  }

  /** A replacement that cannot itself start a new occurrence removes every
      occurrence: `rep` starts with the pattern's first character, that
      character appears nowhere else in the pattern, and wherever it appears
      in `rep` it is followed by something other than the pattern's second
      character. */
  lemma {:induction false} ReplaceRemovesAll(s: string, pat: string, rep: string)
    requires |pat| >= 2 && rep != "" && rep[0] == pat[0]
    requires pat[0] !in pat[1..]
    requires forall i :: 0 <= i < |rep| ==> !Restarts(rep, pat, i)
    ensures !Occurs(Replace(s, pat, rep), pat)
    decreases |s|
  {
    if |s| < |pat| {
    } else if s[..|pat|] == pat {
      ReplaceRemovesAll(s[|pat|..], pat, rep);
      NoMatchAfterReplacement(rep, Replace(s[|pat|..], pat, rep), pat);
    } else {
      ReplaceRemovesAll(s[1..], pat, rep);
      NoMatchAfterKept(s, pat, rep);
    }
  }
}
