/**
 * The JavaScript string operations the site's code relies on, written out
 * over `seq<char>`: `trim`, `startsWith`, `indexOf`, `replace` with a string
 * or a literal global pattern, `split`, `substring`, `toLowerCase` (ASCII
 * letters only), the two regular expressions `/<[^>]*>/g` and `/\s+/`, and
 * the decimal form of a whole number.
 */
module Strings {
  import opened Wrappers

  /** The characters JavaScript's `\s` and `String.prototype.trim` treat as white space. */
  predicate IsSpace(c: char) {
    || c == ' ' || c == '\t' || c == '\n' || c == '\r' || c == '\U{000B}' || c == '\U{000C}'
    || c == '\U{00A0}' || c == '\U{1680}' || ('\U{2000}' <= c <= '\U{200A}')
    || c == '\U{2028}' || c == '\U{2029}' || c == '\U{202F}' || c == '\U{205F}'
    || c == '\U{3000}' || c == '\U{FEFF}'
  }

  predicate StartsWith(s: string, prefix: string) {
    |prefix| <= |s| && s[..|prefix|] == prefix
  }

  predicate EndsWith(s: string, suffix: string) {
    |suffix| <= |s| && s[|s| - |suffix|..] == suffix
  }

  /** `pat` occurs in `s` starting at index `i`. */
  predicate OccursAt(s: string, pat: string, i: nat) {
    i + |pat| <= |s| && s[i..i + |pat|] == pat
  }

  /** `s.indexOf(pat, from)`, with `None` for -1. */
  function IndexOfFrom(s: string, pat: string, from: nat): (r: Option<nat>)
    requires from <= |s|
    ensures r.Some? ==> from <= r.value && OccursAt(s, pat, r.value)
    ensures r.Some? ==> forall k :: from <= k < r.value ==> !OccursAt(s, pat, k)
    ensures r.None? ==> forall k :: from <= k <= |s| ==> !OccursAt(s, pat, k)
    decreases |s| - from
  {
    if OccursAt(s, pat, from) then Some(from)
    else if from == |s| then None
    else IndexOfFrom(s, pat, from + 1)
  }

  function IndexOf(s: string, pat: string): (r: Option<nat>)
    ensures r.Some? ==> OccursAt(s, pat, r.value) && forall k :: 0 <= k < r.value ==> !OccursAt(s, pat, k)
    ensures r.None? ==> forall k :: 0 <= k <= |s| ==> !OccursAt(s, pat, k)
  {
    IndexOfFrom(s, pat, 0)
  }

  /** `s.includes(pat)`. */
  predicate Contains(s: string, pat: string) {
    IndexOf(s, pat).Some?
  }

  /** The first index at or after `from` holding `c`, or `|s|` when there is none. */
  function FindChar(s: string, c: char, from: nat): (i: nat)
    requires from <= |s|
    ensures from <= i <= |s|
    ensures forall k :: from <= k < i ==> s[k] != c
    ensures i < |s| ==> s[i] == c
    decreases |s| - from
  {
    if from == |s| || s[from] == c then from else FindChar(s, c, from + 1)
  }

  /** `s.replace(pat, rep)` with a string pattern: only the first occurrence is replaced. */
  function ReplaceFirst(s: string, pat: string, rep: string): (r: string)
    ensures IndexOf(s, pat).None? ==> r == s
    ensures IndexOf(s, pat).Some? ==>
      var i := IndexOf(s, pat).value; r == s[..i] + rep + s[i + |pat|..]
  {
    match IndexOf(s, pat)
    case None => s
    case Some(i) => s[..i] + rep + s[i + |pat|..]
  }

  /** Replacing the first occurrence of a prefix drops that prefix. */
  lemma ReplaceFirstOfPrefix(pat: string, rest: string, rep: string)
    ensures ReplaceFirst(pat + rest, pat, rep) == rep + rest
  {
    assert OccursAt(pat + rest, pat, 0);
  }

  /**
   * `s.replace(/pat/g, rep)` for a literal pattern: occurrences are found left
   * to right, do not overlap, and replaced text is not searched again.
   */
  function ReplaceAll(s: string, pat: string, rep: string): (r: string)
    requires |pat| > 0
    decreases |s|
  {
    if s == [] then []
    else if StartsWith(s, pat) then rep + ReplaceAll(s[|pat|..], pat, rep)
    else [s[0]] + ReplaceAll(s[1..], pat, rep)
  }

  /** Replacing a single character distributes over concatenation. */
  lemma {:induction false} ReplaceCharAppend(a: string, b: string, c: char, rep: string)
    ensures ReplaceAll(a + b, [c], rep) == ReplaceAll(a, [c], rep) + ReplaceAll(b, [c], rep)
    decreases |a|
  {
    if a != [] {
      assert (a + b)[1..] == a[1..] + b;
      assert StartsWith(a + b, [c]) == StartsWith(a, [c]);
      ReplaceCharAppend(a[1..], b, c, rep);
    } else {
      assert a + b == b;
    }
  }

  /** Replacing a character that does not occur changes nothing. */
  lemma {:induction false} ReplaceAbsentChar(s: string, c: char, rep: string)
    requires c !in s
    ensures ReplaceAll(s, [c], rep) == s
    decreases |s|
  {
    if s != [] {
      assert s == [s[0]] + s[1..];
      ReplaceAbsentChar(s[1..], c, rep);
    }
  }

  /** `s.split(sep)` with a non-empty string separator. */
  function SplitOn(s: string, sep: string): (parts: seq<string>)
    requires |sep| > 0
    ensures |parts| >= 1
    decreases |s|
  {
    match IndexOf(s, sep)
    case None => [s]
    case Some(i) => [s[..i]] + SplitOn(s[i + |sep|..], sep)
  }

  /** The split has one piece exactly when the separator does not occur. */
  lemma SplitOnSingle(s: string, sep: string)
    requires |sep| > 0
    ensures |SplitOn(s, sep)| == 1 <==> IndexOf(s, sep).None?
  {
    if IndexOf(s, sep).Some? {
      var i := IndexOf(s, sep).value;
      assert |SplitOn(s[i + |sep|..], sep)| >= 1;
    }
  }

  /** Splitting cuts at the first occurrence and splits what follows it. */
  lemma SplitOnAt(s: string, sep: string)
    requires |sep| > 0 && IndexOf(s, sep).Some?
    ensures SplitOn(s, sep) == [s[..IndexOf(s, sep).value]] + SplitOn(s[IndexOf(s, sep).value + |sep|..], sep)
  {
  }

  /** With no occurrence the split is the whole string. */
  lemma SplitOnNone(s: string, sep: string)
    requires |sep| > 0 && IndexOf(s, sep).None?
    ensures SplitOn(s, sep) == [s]
  {
  }

  /** An occurrence in `b` is an occurrence in `a + b`, `|a|` further on. */
  lemma OccursShifted(a: string, b: string, pat: string, j: nat)
    requires j <= |b|
    ensures OccursAt(a + b, pat, |a| + j) <==> OccursAt(b, pat, j)
  {
    if j + |pat| <= |b| {
      assert (a + b)[|a| + j..|a| + j + |pat|] == b[j..j + |pat|];
    }
  }

  /** When no occurrence starts inside `a`, the first one in `a + b` is the first one in `b`, shifted. */
  lemma IndexOfShift(a: string, b: string, pat: string)
    requires forall k :: 0 <= k < |a| ==> !OccursAt(a + b, pat, k)
    ensures IndexOf(b, pat).None? ==> IndexOf(a + b, pat).None?
    ensures IndexOf(b, pat).Some? ==> IndexOf(a + b, pat).Some? && IndexOf(a + b, pat).value == |a| + IndexOf(b, pat).value
  {
    var s := a + b;
    forall k | |a| <= k <= |s|
      ensures OccursAt(s, pat, k) <==> OccursAt(b, pat, k - |a|)
    {
      OccursShifted(a, b, pat, k - |a|);
    }
    match IndexOf(b, pat)
    case None =>
      assert forall k :: 0 <= k <= |s| ==> !OccursAt(s, pat, k);
    case Some(j) =>
      assert OccursAt(s, pat, |a| + j);
      assert forall k :: 0 <= k < |a| + j ==> !OccursAt(s, pat, k);
  }

  /** Occurrences in `b` are the occurrences in `a + b` after `a`, when none starts inside `a`. */
  lemma SplitOnShift(a: string, b: string, pat: string)
    requires |pat| > 0
    requires forall k :: 0 <= k < |a| ==> !OccursAt(a + b, pat, k)
    ensures SplitOn(a + b, pat) == [a + SplitOn(b, pat)[0]] + SplitOn(b, pat)[1..]
  {
    IndexOfShift(a, b, pat);
    SplitOnShifted(a, b, pat);
  }

  lemma SplitOnShifted(a: string, b: string, pat: string)
    requires |pat| > 0
    requires IndexOf(b, pat).None? ==> IndexOf(a + b, pat).None?
    requires IndexOf(b, pat).Some? ==> IndexOf(a + b, pat).Some? && IndexOf(a + b, pat).value == |a| + IndexOf(b, pat).value
    ensures SplitOn(a + b, pat) == [a + SplitOn(b, pat)[0]] + SplitOn(b, pat)[1..]
  {
    if IndexOf(b, pat).Some? {
      SplitOnShiftedSome(a, b, pat);
    } else {
      SplitOnNone(b, pat);
      SplitOnNone(a + b, pat);
      GlueFirst(a, b, []);
    }
  }

  lemma SplitOnShiftedSome(a: string, b: string, pat: string)
    requires |pat| > 0
    requires IndexOf(b, pat).Some?
    requires IndexOf(a + b, pat).Some? && IndexOf(a + b, pat).value == |a| + IndexOf(b, pat).value
    ensures SplitOn(a + b, pat) == [a + SplitOn(b, pat)[0]] + SplitOn(b, pat)[1..]
  {
    var j := IndexOf(b, pat).value;
    SplitOnAt(b, pat);
    SplitOnCutShifted(a, b, pat, j);
    GlueFirst(a, b[..j], SplitOn(b[j + |pat|..], pat));
  }

  lemma SplitOnCutShifted(a: string, b: string, pat: string, j: nat)
    requires |pat| > 0 && j + |pat| <= |b|
    requires IndexOf(a + b, pat).Some? && IndexOf(a + b, pat).value == |a| + j
    ensures SplitOn(a + b, pat) == [a + b[..j]] + SplitOn(b[j + |pat|..], pat)
  {
    ConcatSlices(a, b, j, |pat|);
    SplitOnAt(a + b, pat);
  }

  lemma GlueFirst(x: string, head: string, rest: seq<string>)
    ensures [x + head] + rest == [x + ([head] + rest)[0]] + ([head] + rest)[1..]
  {
    assert ([head] + rest)[1..] == rest;
  }

  lemma ConcatSlices(a: string, b: string, j: nat, n: nat)
    requires j + n <= |b|
    ensures (a + b)[..|a| + j] == a + b[..j]
    ensures (a + b)[|a| + j + n..] == b[j + n..]
  {
  }

  /** The first occurrence of a character not found in `head` is the one right after it. */
  lemma IndexOfAfterHead(head: string, c: char, rest: string)
    requires c !in head
    ensures IndexOf(head + [c] + rest, [c]) == Some(|head|)
  {
    var s := head + [c] + rest;
    assert OccursAt(s, [c], |head|) by { assert s[|head|..|head| + 1] == [c]; }
    forall k | 0 <= k < |head|
      ensures !OccursAt(s, [c], k)
    {
      assert s[k] == head[k];
      assert head[k] in head;
    }
  }

  /** `parts.join(sep)`. */
  function Join(parts: seq<string>, sep: string): string {
    if parts == [] then []
    else if |parts| == 1 then parts[0]
    else parts[0] + sep + Join(parts[1..], sep)
  }

  /** Joining keeps every part: the result is at least as long as any one of them. */
  lemma {:induction false} JoinLongerThanPart(parts: seq<string>, sep: string, i: nat)
    requires i < |parts|
    ensures |Join(parts, sep)| >= |parts[i]|
    decreases |parts|
  {
    if i > 0 {
      JoinLongerThanPart(parts[1..], sep, i - 1);
    }
  }

  /** Splitting at a separator character that no part holds undoes joining the parts with it. */
  lemma {:induction false} SplitJoinRoundTrip(parts: seq<string>, c: char)
    requires |parts| >= 1
    requires forall i :: 0 <= i < |parts| ==> c !in parts[i]
    ensures SplitOn(Join(parts, [c]), [c]) == parts
    decreases |parts|
  {
    if |parts| == 1 {
      var s := parts[0];
      if IndexOf(s, [c]).Some? {
        var j := IndexOf(s, [c]).value;
        assert s[j..j + 1] == [c];
        assert s[j] in s;
      }
    } else {
      var rest := Join(parts[1..], [c]);
      IndexOfAfterHead(parts[0], c, rest);
      var s := parts[0] + [c] + rest;
      assert s[..|parts[0]|] == parts[0];
      assert s[|parts[0]| + 1..] == rest;
      SplitJoinRoundTrip(parts[1..], c);
    }
  }

  /** `s.substring(0, n)`. */
  function Take(s: string, n: nat): (r: string)
    ensures |r| == if n < |s| then n else |s|
    ensures r == s[..|r|]
  {
    if n < |s| then s[..n] else s
  }

  /** `s.trimStart()`. */
  function TrimStart(s: string): (r: string)
    ensures |r| <= |s| && r == s[|s| - |r|..]
    ensures r == [] || !IsSpace(r[0])
    ensures forall k :: 0 <= k < |s| - |r| ==> IsSpace(s[k])
    decreases |s|
  {
    if s != [] && IsSpace(s[0]) then TrimStart(s[1..]) else s
  }

  /** `s.trimEnd()`. */
  function TrimEnd(s: string): (r: string)
    ensures |r| <= |s| && r == s[..|r|]
    ensures r == [] || !IsSpace(r[|r| - 1])
    ensures forall k :: |r| <= k < |s| ==> IsSpace(s[k])
    decreases |s|
  {
    if s != [] && IsSpace(s[|s| - 1]) then TrimEnd(s[..|s| - 1]) else s
  }

  /** `s.trim()`: neither end of the result is white space. */
  function Trim(s: string): (r: string)
    ensures r == [] || (!IsSpace(r[0]) && !IsSpace(r[|r| - 1]))
    ensures |r| <= |s|
  {
    TrimEnd(TrimStart(s))
  }

  /** Trimming keeps a leading run of non-space characters. */
  lemma TrimKeepsPrefix(s: string, prefix: string)
    requires StartsWith(s, prefix) && prefix != []
    requires forall k :: 0 <= k < |prefix| ==> !IsSpace(prefix[k])
    ensures StartsWith(Trim(s), prefix)
  {
    assert !IsSpace(s[0]);
    assert TrimStart(s) == s;
    assert s[|prefix| - 1] == prefix[|prefix| - 1];
  }

  /** The index of the first white-space character of `s`, or `|s|`. */
  function FirstSpace(s: string): (i: nat)
    ensures i <= |s|
    ensures forall k :: 0 <= k < i ==> !IsSpace(s[k])
    ensures i < |s| ==> IsSpace(s[i])
    decreases |s|
  {
    if s == [] || IsSpace(s[0]) then 0 else 1 + FirstSpace(s[1..])
  }

  /** `s.split(/\s+/)`: the pieces between maximal white-space runs, empty ones included. */
  function SplitWs(s: string): (parts: seq<string>)
    ensures |parts| >= 1
    ensures forall k, j :: 0 <= k < |parts| && 0 <= j < |parts[k]| ==> !IsSpace(parts[k][j])
    decreases |s|
  {
    var i := FirstSpace(s);
    if i == |s| then [s] else [s[..i]] + SplitWs(TrimStart(s[i..]))
  }

  /** `parts.filter(w => w.length > 0)`. */
  function NonEmpty(parts: seq<string>): (r: seq<string>)
    ensures |r| <= |parts|
    ensures forall w :: w in r ==> w != [] && w in parts
    ensures (forall k :: 0 <= k < |parts| ==> parts[k] != []) ==> r == parts
  {
    if parts == [] then []
    else if parts[0] == [] then NonEmpty(parts[1..])
    else
      assert parts == [parts[0]] + parts[1..];
      [parts[0]] + NonEmpty(parts[1..])
  }

  /** The words of `s`: its non-empty white-space separated tokens, in order. */
  function Words(s: string): (r: seq<string>)
    ensures forall w :: w in r ==> w != []
    ensures forall w, c :: w in r && c in w ==> !IsSpace(c)
    ensures |r| == RunStarts(s, true)
  {
    var parts := SplitWs(s);
    forall w, c | w in parts && c in w
      ensures !IsSpace(c)
    {
      var k :| 0 <= k < |parts| && parts[k] == w;
      var j :| 0 <= j < |w| && w[j] == c;
    }
    SplitWsCountsRuns(s);
    NonEmpty(parts)
  }

  /**
   * Scanning left to right, the number of non-white-space characters that
   * follow white space or, when `afterSpace`, the start: the number of
   * maximal non-white-space runs.
   */
  function RunStarts(s: string, afterSpace: bool): nat
    decreases |s|
  {
    if s == [] then 0
    else (if afterSpace && !IsSpace(s[0]) then 1 else 0) + RunStarts(s[1..], IsSpace(s[0]))
  }

  /** A leading run of `i` non-white-space characters counts once, when it follows white space. */
  lemma {:induction false} RunStartsSkipWord(s: string, afterSpace: bool, i: nat)
    requires i <= |s| && forall k :: 0 <= k < i ==> !IsSpace(s[k])
    ensures RunStarts(s, afterSpace) ==
      (if i > 0 && afterSpace then 1 else 0) + RunStarts(s[i..], if i == 0 then afterSpace else false)
    decreases i
  {
    if i > 0 {
      RunStartsSkipWord(s[1..], false, i - 1);
      assert s[1..][i - 1..] == s[i..];
    }
  }

  /** Leading white space counts nothing and leaves the scan after white space. */
  lemma {:induction false} RunStartsSkipSpaces(s: string, afterSpace: bool)
    requires s != [] && IsSpace(s[0])
    ensures RunStarts(s, afterSpace) == RunStarts(TrimStart(s), true)
    decreases |s|
  {
    var t := s[1..];
    if t != [] && IsSpace(t[0]) {
      RunStartsSkipSpaces(t, true);
    }
  }

  /** The non-empty pieces of the split are as many as the white-space separated runs. */
  lemma {:induction false} SplitWsCountsRuns(s: string)
    ensures |NonEmpty(SplitWs(s))| == RunStarts(s, true)
    decreases |s|
  {
    var i := FirstSpace(s);
    RunStartsSkipWord(s, true, i);
    if i == |s| {
      assert SplitWs(s) == [s];
      assert s[i..] == [];
    } else {
      var u := s[i..];
      var t := TrimStart(u);
      RunStartsSkipSpaces(u, i == 0);
      SplitWsCountsRuns(t);
      var parts := SplitWs(s);
      assert parts == [s[..i]] + SplitWs(t);
      assert parts[0] == s[..i] && parts[1..] == SplitWs(t);
      assert |s[..i]| == i;
    }
  }

  /**
   * A non-empty string that neither starts nor ends with white space splits
   * into non-empty pieces only.
   */
  lemma {:induction false} SplitWsOfTrimmed(s: string)
    requires s != [] && !IsSpace(s[0]) && !IsSpace(s[|s| - 1])
    ensures forall k :: 0 <= k < |SplitWs(s)| ==> SplitWs(s)[k] != []
    decreases |s|
  {
    var i := FirstSpace(s);
    if i < |s| {
      var t := TrimStart(s[i..]);
      assert !IsSpace(s[i..][|s| - 1 - i]);
      assert t[|t| - 1] == s[|s| - 1];
      SplitWsOfTrimmed(t);
      assert SplitWs(s) == [s[..i]] + SplitWs(t);
    }
  }

  /** Two adjacent white-space characters occur in `s`. */
  predicate HasSpaceRun(s: string) {
    exists i :: 0 <= i < |s| - 1 && IsSpace(s[i]) && IsSpace(s[i + 1])
  }

  /** `s.replace(/\s+/g, " ")`: each maximal white-space run becomes one blank. */
  function CollapseWs(s: string): (r: string)
    ensures |r| <= |s|
    ensures forall k :: 0 <= k < |r| && IsSpace(r[k]) ==> r[k] == ' '
    decreases |s|
  {
    if s == [] then []
    else if IsSpace(s[0]) then " " + CollapseWs(TrimStart(s))
    else [s[0]] + CollapseWs(s[1..])
  }

  /** Collapsing shortens the text exactly when some white-space run is longer than one. */
  lemma {:induction false} CollapseShortens(s: string)
    ensures |CollapseWs(s)| < |s| <==> HasSpaceRun(s)
    decreases |s|
  {
    if s == [] {
    } else if IsSpace(s[0]) {
      var t := TrimStart(s);
      if |s| >= 2 && IsSpace(s[1]) {
        assert HasSpaceRun(s) by { assert IsSpace(s[0]) && IsSpace(s[0 + 1]); }
        assert TrimStart(s) == TrimStart(s[1..]);
        assert |TrimStart(s[1..])| < |s[1..]|;
      } else {
        assert t == s[1..];
        CollapseShortens(t);
        if HasSpaceRun(t) {
          var i :| 0 <= i < |t| - 1 && IsSpace(t[i]) && IsSpace(t[i + 1]);
          assert IsSpace(s[i + 1]) && IsSpace(s[(i + 1) + 1]);
        }
        if HasSpaceRun(s) {
          var i :| 0 <= i < |s| - 1 && IsSpace(s[i]) && IsSpace(s[i + 1]);
          assert i != 0;
          assert IsSpace(t[i - 1]) && IsSpace(t[(i - 1) + 1]);
        }
      }
    } else {
      var t := s[1..];
      CollapseShortens(t);
      if HasSpaceRun(t) {
        var i :| 0 <= i < |t| - 1 && IsSpace(t[i]) && IsSpace(t[i + 1]);
        assert IsSpace(s[i + 1]) && IsSpace(s[(i + 1) + 1]);
      }
      if HasSpaceRun(s) {
        var i :| 0 <= i < |s| - 1 && IsSpace(s[i]) && IsSpace(s[i + 1]);
        assert i != 0;
        assert IsSpace(t[i - 1]) && IsSpace(t[(i - 1) + 1]);
      }
    }
  }

  /**
   * `s.replace(/<[^>]*>/g, " ")`: every `<` that has a later `>` starts a tag
   * running to the first such `>`, and the tag becomes one blank; a `<` with
   * no later `>` is kept.
   */
  function StripTags(s: string): (r: string)
    ensures forall c :: c in r ==> c in s || c == ' '
    ensures '<' !in s ==> r == s
    decreases |s|
  {
    if s == [] then []
    else
      var close := FindChar(s, '>', 1);
      if s[0] == '<' && close < |s| then " " + StripTags(s[close + 1..])
      else [s[0]] + StripTags(s[1..])
  }

  /** No `<` is followed, anywhere later, by a `>`. */
  predicate NoTag(s: string) {
    forall i, j :: 0 <= i < j < |s| && s[i] == '<' ==> s[j] != '>'
  }

  /** Stripping leaves no complete tag behind. */
  lemma {:induction false} StrippedHasNoTag(s: string)
    ensures NoTag(StripTags(s))
    decreases |s|
  {
    if s != [] {
      var close := FindChar(s, '>', 1);
      if s[0] == '<' && close < |s| {
        StrippedHasNoTag(s[close + 1..]);
      } else {
        var rest := StripTags(s[1..]);
        StrippedHasNoTag(s[1..]);
        if s[0] == '<' {
          assert '>' !in s[1..];
          assert '>' !in rest;
        }
        var r := [s[0]] + rest;
        forall i, j | 0 <= i < j < |r| && r[i] == '<'
          ensures r[j] != '>'
        {
          if i > 0 {
            assert rest[i - 1] == '<' && r[j] == rest[j - 1];
          } else {
            assert r[j] in rest;
          }
        }
      }
    }
  }

  /** `s.toLowerCase()` on one character, for the ASCII letters. */
  function LowerChar(c: char): char {
    if 'A' <= c <= 'Z' then (c as int + 32) as char else c
  }

  /** `s.toLowerCase()`, for the ASCII letters. */
  function ToLower(s: string): (r: string)
    ensures |r| == |s| && forall k :: 0 <= k < |s| ==> r[k] == LowerChar(s[k])
  {
    seq(|s|, k requires 0 <= k < |s| => LowerChar(s[k]))
  }

  function DigitChar(d: nat): (c: char)
    requires d < 10
    ensures '0' <= c <= '9' && c as int - '0' as int == d
  {
    (d + '0' as int) as char
  }

  predicate AllDigits(s: string) {
    forall k :: 0 <= k < |s| ==> '0' <= s[k] <= '9'
  }

  /** `String(n)` for a whole number: its decimal digits, without leading zeros. */
  function NatToString(n: nat): (r: string)
    ensures |r| >= 1 && AllDigits(r)
    ensures r[0] == '0' ==> n == 0
    decreases n
  {
    if n < 10 then [DigitChar(n)] else NatToString(n / 10) + [DigitChar(n % 10)]
  }

  /** The number a string of decimal digits denotes. */
  function ParseNat(s: string): nat
    requires AllDigits(s)
    decreases |s|
  {
    if s == [] then 0 else ParseNat(s[..|s| - 1]) * 10 + (s[|s| - 1] as int - '0' as int)
  }

  /** Reading back the decimal form of a number yields that number. */
  lemma {:induction false} ParseNatToString(n: nat)
    ensures ParseNat(NatToString(n)) == n
    decreases n
  {
    if n >= 10 {
      var s := NatToString(n);
      assert s[..|s| - 1] == NatToString(n / 10);
      ParseNatToString(n / 10);
    }
  }
}
