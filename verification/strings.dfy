/**
  String primitives shared by the extraction engine and the exporter.

  Python's `str.strip`, `str.split`, `str.join`, `str.replace`, leftmost
  pattern search, case-insensitive literal comparison and decimal numerals,
  over `string` (= `seq<char>`). Whitespace, digits and case folding are the
  ASCII (and, for case folding, Latin-1) part of Python's Unicode tables.
*/
module Strings {
  import opened Wrappers

  /** Python's `str.isspace` restricted to code points below 128: tab, line
      feed, vertical tab, form feed, carriage return, the separators
      0x1C-0x1F and space. `str.strip()` and the regex class `\s` agree. */
  predicate IsSpace(c: char) {
    c == ' ' || ('\t' <= c <= '\r') || ('\U{1C}' <= c <= '\U{1F}')
  }

  /** The regex class `\d`, restricted to ASCII. */
  predicate IsDigit(c: char) {
    '0' <= c <= '9'
  }

  predicate AllSpace(s: string) {
    forall i :: 0 <= i < |s| ==> IsSpace(s[i])
  }

  predicate AllDigits(s: string) {
    forall i :: 0 <= i < |s| ==> IsDigit(s[i])
  }

  /** `s` neither starts nor ends with whitespace: a fixed point of `strip`. */
  predicate IsStripped(s: string) {
    s == [] || (!IsSpace(s[0]) && !IsSpace(s[|s| - 1]))
  }

  // ------------------------------------------------------------------
  // str.strip()
  // ------------------------------------------------------------------

  /** The start of the trailing whitespace run of `s[lo..j]`. */
  function SkipSpacesBack(s: string, lo: nat, j: nat): (k: nat)
    requires lo <= j <= |s|
    ensures lo <= k <= j
    ensures forall m :: k <= m < j ==> IsSpace(s[m])
    ensures k == lo || !IsSpace(s[k - 1])
    decreases j
  {
    if lo < j && IsSpace(s[j - 1]) then SkipSpacesBack(s, lo, j - 1) else j
  }

  /** Python's `str.strip()`: the result is stripped and is empty exactly
      when `s` is blank; `StripShape` says where it sits in `s`. */
  function Strip(s: string): (r: string)
    ensures IsStripped(r)
    ensures |r| <= |s|
    ensures r == [] <==> AllSpace(s)
  {
    var i := SkipSpaces(s, 0);
    var j := SkipSpacesBack(s, i, |s|);
    assert i < j ==> !IsSpace(s[i]);
    s[i..j]
  }

  /** `s` is `lead + Strip(s) + trail` with `lead` and `trail` all
      whitespace; `lead` is the leading whitespace run. */
  lemma StripShape(s: string)
    ensures var i := SkipSpaces(s, 0); var r := Strip(s);
      i + |r| <= |s| && r == s[i..i + |r|] && AllSpace(s[..i]) && AllSpace(s[i + |r|..])
  {
  }

  /** Stripping adds no character. */
  lemma StripWithin(g: string, c: char)
    requires c !in g
    ensures c !in Strip(g)
  {
    var r := Strip(g);
    var i := SkipSpaces(g, 0);
    StripShape(g);
    forall k | 0 <= k < |r|
      ensures r[k] != c
    {
      assert r[k] == g[i + k];
    }
  }

  /** A trailing whitespace run that ends at a non-space (or at `lo`) is
      the one `SkipSpacesBack` finds. */
  lemma SkipSpacesBackAt(s: string, lo: nat, j: nat, k: nat)
    requires lo <= k <= j <= |s|
    requires forall m :: k <= m < j ==> IsSpace(s[m])
    requires k == lo || !IsSpace(s[k - 1])
    ensures SkipSpacesBack(s, lo, j) == k
    decreases j - k
  {
    if k < j {
      SkipSpacesBackAt(s, lo, j - 1, k);
    }
  }

  /** `strip` removes exactly a leading and a trailing whitespace run:
      whenever `s` is blank, then stripped, then blank text, `Strip(s)` is
      the middle part. */
  lemma StripUnique(s: string, a: string, r: string, b: string)
    requires s == a + r + b && AllSpace(a) && AllSpace(b) && IsStripped(r)
    ensures Strip(s) == r
  {
    if r == [] {
      assert s == a + b;
      AllSpaceConcat(a, b);
    } else {
      StripUniqueNonEmpty(s, a, r, b);
    }
  }

  /** Two blank texts join into a blank text. */
  lemma AllSpaceConcat(a: string, b: string)
    requires AllSpace(a) && AllSpace(b)
    ensures AllSpace(a + b)
  {
    forall k | 0 <= k < |a + b|
      ensures IsSpace((a + b)[k])
    {
      if k < |a| {
        assert (a + b)[k] == a[k];
      } else {
        assert (a + b)[k] == b[k - |a|];
      }
    }
  }

  /** `StripUnique` for a non-empty middle part. */
  lemma StripUniqueNonEmpty(s: string, a: string, r: string, b: string)
    requires s == a + r + b && AllSpace(a) && AllSpace(b) && IsStripped(r) && r != []
    ensures Strip(s) == r
  {
    forall k | 0 <= k < |a|
      ensures IsSpace(s[k])
    {
      assert s[k] == a[k];
    }
    assert s[|a|] == r[0];
    SkipSpacesAt(s, 0, |a|);
    forall m | |a| + |r| <= m < |s|
      ensures IsSpace(s[m])
    {
      assert s[m] == b[m - |a| - |r|];
    }
    assert s[|a| + |r| - 1] == r[|r| - 1];
    SkipSpacesBackAt(s, |a|, |s|, |a| + |r|);
    assert s[|a|..|a| + |r|] == r;
  }

  /** `s` is blank text, then `Strip(s)`, then blank text. */
  lemma StripParts(s: string) returns (a: string, b: string)
    ensures s == a + Strip(s) + b && AllSpace(a) && AllSpace(b)
  {
    var i := SkipSpaces(s, 0);
    var r := Strip(s);
    StripShape(s);
    a := s[..i];
    b := s[i + |r|..];
    ThreeParts(s, i, i + |r|);
  }

  lemma ThreeParts(s: string, i: nat, j: nat)
    requires i <= j <= |s|
    ensures s == s[..i] + s[i..j] + s[j..]
  {
  }

  /** A whitespace character in front does not change the stripped text. */
  lemma StripConsSpace(c: char, x: string)
    requires IsSpace(c)
    ensures Strip([c] + x) == Strip(x)
  {
    var a, b := StripParts(x);
    var r := Strip(x);
    AllSpaceConcat([c], a);
    ConsConcat(c, a, r, b);
    StripUnique([c] + x, [c] + a, r, b);
  }

  lemma ConcatAssoc(a: string, r: string, b: string)
    ensures a + r + b == a + (r + b)
  {
  }

  lemma ConsConcat(c: char, a: string, r: string, b: string)
    ensures [c] + (a + r + b) == ([c] + a) + r + b
  {
  }

  /** A whitespace character at the end does not change the stripped text. */
  lemma StripSnocSpace(x: string, c: char)
    requires IsSpace(c)
    ensures Strip(x + [c]) == Strip(x)
  {
    var a, b := StripParts(x);
    AllSpaceConcat(b, [c]);
    assert x + [c] == a + Strip(x) + (b + [c]);
    StripUnique(x + [c], a, Strip(x), b + [c]);
  }

  lemma StripOfStripped(s: string)
    requires IsStripped(s)
    ensures Strip(s) == s
  {
  }

  // ------------------------------------------------------------------
  // Occurrences and leftmost search
  // ------------------------------------------------------------------

  predicate OccursAt(s: string, pat: string, k: nat) {
    k + |pat| <= |s| && s[k..k + |pat|] == pat
  }

  ghost predicate Contains(s: string, pat: string) {
    exists k: nat :: OccursAt(s, pat, k)
  }

  lemma ContainsChar(s: string, c: char)
    ensures Contains(s, [c]) <==> c in s
  {
    if c in s {
      var k :| 0 <= k < |s| && s[k] == c;
      assert OccursAt(s, [c], k);
    }
    if Contains(s, [c]) {
      var k: nat :| OccursAt(s, [c], k);
      assert s[k] == s[k..k + 1][0];
    }
  }

  lemma ContainsShift(c: char, t: string, pat: string)
    requires Contains(t, pat)
    ensures Contains([c] + t, pat)
  {
    var k: nat :| OccursAt(t, pat, k);
    assert ([c] + t)[k + 1..k + 1 + |pat|] == t[k..k + |pat|];
    assert OccursAt([c] + t, pat, k + 1);
  }

  /** The leftmost position at or after `from` where the matcher `m`
      succeeds: the scan of Python's `re.search`, with each pattern written
      as a matcher that decides a match at one start position. */
  function Leftmost<T>(s: string, from: nat, m: (string, nat) -> Option<T>): (r: Option<(nat, T)>)
    requires from <= |s|
    ensures r.Some? ==> from <= r.value.0 <= |s| && m(s, r.value.0) == Some(r.value.1)
    ensures r.Some? ==> forall k :: from <= k < r.value.0 ==> m(s, k).None?
    ensures r.None? ==> forall k :: from <= k <= |s| ==> m(s, k).None?
    decreases |s| - from
  {
    match m(s, from)
    case Some(v) => Some((from, v))
    case None => if from == |s| then None else Leftmost(s, from + 1, m)
  }

  /** A match at `p` with none before it is the leftmost match. */
  lemma {:induction false} LeftmostIs<T>(s: string, from: nat, m: (string, nat) -> Option<T>, p: nat, v: T)
    requires from <= p <= |s| && m(s, p) == Some(v)
    requires forall k :: from <= k < p ==> m(s, k).None?
    ensures Leftmost(s, from, m) == Some((p, v))
    decreases p - from
  {
    if from < p {
      assert m(s, from).None?;
      LeftmostIs(s, from + 1, m, p, v);
    }
  }

  /** Without any match from `from` on, there is no leftmost match. */
  lemma {:induction false} LeftmostNone<T>(s: string, from: nat, m: (string, nat) -> Option<T>)
    requires from <= |s|
    requires forall k :: from <= k <= |s| ==> m(s, k).None?
    ensures Leftmost(s, from, m).None?
    decreases |s| - from
  {
    assert m(s, from).None?;
    if from < |s| {
      LeftmostNone(s, from + 1, m);
    }
  }

  /** Python's `str.find` as an option: the first occurrence of `pat`. */
  function Find(s: string, pat: string): (r: Option<nat>)
    ensures r.Some? ==> OccursAt(s, pat, r.value)
    ensures r.Some? ==> forall k: nat :: k < r.value ==> !OccursAt(s, pat, k)
    ensures r.None? <==> !Contains(s, pat)
  {
    var f := (t: string, j: nat) => if OccursAt(t, pat, j) then Some(j) else None;
    match Leftmost(s, 0, f)
    case Some((k, _)) =>
      assert forall j: nat :: j < k ==> !OccursAt(s, pat, j) by {
        forall j: nat | j < k
          ensures !OccursAt(s, pat, j)
        {
          assert f(s, j).None?;
        }
      }
      Some(k)
    case None =>
      assert forall j: nat :: !OccursAt(s, pat, j) by {
        forall j: nat
          ensures !OccursAt(s, pat, j)
        {
          if j <= |s| {
            assert f(s, j).None?;
          }
        }
      }
      None
  }

  // ------------------------------------------------------------------
  // str.join, str.split, str.replace
  // ------------------------------------------------------------------

  /** Python's `sep.join(parts)`. */
  function Join(parts: seq<string>, sep: string): string
    decreases |parts|
  {
    if |parts| == 0 then ""
    else if |parts| == 1 then parts[0]
    else parts[0] + sep + Join(parts[1..], sep)
  }

  lemma JoinConsFirst(c: char, t: seq<string>, sep: string)
    requires |t| >= 1
    ensures Join([[c] + t[0]] + t[1..], sep) == [c] + Join(t, sep)
  {
    var u := [[c] + t[0]] + t[1..];
    assert u[1..] == t[1..];
  }

  lemma JoinPrefix(parts: seq<string>, sep: string)
    requires |parts| >= 1
    ensures |parts[0]| <= |Join(parts, sep)|
    ensures Join(parts, sep)[..|parts[0]|] == parts[0]
  {
  }

  lemma NoOccurrenceCons(c: char, t: string, pat: string)
    requires pat != [] && !Contains(t, pat) && !OccursAt([c] + t, pat, 0)
    ensures !Contains([c] + t, pat)
  {
    forall k: nat
      ensures !OccursAt([c] + t, pat, k)
    {
      if k > 0 {
        OccursShift(c, t, pat, k);
        assert !OccursAt(t, pat, k - 1);
      }
    }
  }

  /** An occurrence past the first character is one in the rest. */
  lemma OccursShift(c: char, t: string, pat: string, k: nat)
    requires k > 0
    ensures OccursAt([c] + t, pat, k) == OccursAt(t, pat, k - 1)
  {
    if k + |pat| <= |[c] + t| {
      assert ([c] + t)[k..k + |pat|] == t[k - 1..k - 1 + |pat|];
    }
  }

  /** Python's `s.split(sep)` for a non-empty separator (Python rejects an
      empty one): the pieces between the leftmost non-overlapping
      occurrences of `sep`. Joining them with `sep` gives `s` back, and no
      piece contains `sep`. */
  function Split(s: string, sep: string): (r: seq<string>)
    requires sep != []
    ensures |r| >= 1
    ensures Join(r, sep) == s
    ensures forall i :: 0 <= i < |r| ==> !Contains(r[i], sep)
    ensures |r| == 1 <==> !Contains(s, sep)
    decreases |s|
  {
    if |s| < |sep| then
      assert !Contains(s, sep);
      [s]
    else if s[..|sep|] == sep then
      var t := Split(s[|sep|..], sep);
      assert ([""] + t)[1..] == t;
      assert !Contains("", sep);
      assert OccursAt(s, sep, 0);
      [""] + t
    else
      var t := Split(s[1..], sep);
      SplitCons(s, sep, t);
      [[s[0]] + t[0]] + t[1..]
  }

  /** `r` meets the postcondition of `Split(s, sep)`. */
  ghost predicate SplitsInto(s: string, sep: string, r: seq<string>) {
    && |r| >= 1
    && Join(r, sep) == s
    && (forall i :: 0 <= i < |r| ==> !Contains(r[i], sep))
    && (|r| == 1 <==> !Contains(s, sep))
  }

  /** The step of `Split` past a first character that starts no
      occurrence: that character joins the first piece of the rest. */
  lemma SplitCons(s: string, sep: string, t: seq<string>)
    requires sep != [] && |sep| <= |s| && s[..|sep|] != sep
    requires SplitsInto(s[1..], sep, t)
    ensures SplitsInto(s, sep, [[s[0]] + t[0]] + t[1..])
  {
    var r := [[s[0]] + t[0]] + t[1..];
    JoinConsFirst(s[0], t, sep);
    JoinPrefix(r, sep);
    assert s == [s[0]] + s[1..];
    assert !OccursAt([s[0]] + t[0], sep, 0);
    NoOccurrenceCons(s[0], t[0], sep);
    assert forall i :: 1 <= i < |r| ==> r[i] == t[i];
    assert |r| == 1 ==> !Contains(s, sep) by {
      if |r| == 1 {
        assert s == [s[0]] + t[0];
      }
    }
    assert |r| > 1 ==> Contains(s, sep) by {
      if |r| > 1 {
        ContainsShift(s[0], s[1..], sep);
      }
    }
  }

  /** An occurrence of `sep` at the start splits off an empty first piece. */
  lemma SplitAtStart(s: string, pat: string)
    requires pat != [] && OccursAt(s, pat, 0)
    ensures Split(s, pat) == [""] + Split(s[|pat|..], pat)
  {
  }

  /** Without an occurrence at the start, the first character joins the
      first piece of the rest. */
  lemma SplitPastStart(s: string, pat: string)
    requires pat != [] && |pat| <= |s| && !OccursAt(s, pat, 0)
    ensures var t := Split(s[1..], pat); Split(s, pat) == [[s[0]] + t[0]] + t[1..]
  {
  }

  /** Python's `s.replace(pat, rep)`, which equals `rep.join(s.split(pat))`. */
  function ReplaceAll(s: string, pat: string, rep: string): (r: string)
    requires pat != []
    ensures !Contains(s, pat) ==> r == s
  {
    Join(Split(s, pat), rep)
  }

  lemma JoinAvoidsChar(parts: seq<string>, sep: string, c: char)
    requires c !in sep
    requires forall i :: 0 <= i < |parts| ==> c !in parts[i]
    ensures c !in Join(parts, sep)
    decreases |parts|
  {
    if |parts| > 1 {
      JoinAvoidsChar(parts[1..], sep, c);
    }
  }

  lemma JoinKeepsChars(parts: seq<string>, sep: string, i: nat, c: char)
    requires i < |parts| && c in parts[i]
    ensures c in Join(parts, sep)
    decreases |parts|
  {
    if i > 0 {
      JoinKeepsChars(parts[1..], sep, i - 1, c);
    }
  }

  /** `c` does not occur in `s.replace(pat, rep)` when `pat` is that one
      character and `rep` does not contain it. */
  lemma ReplaceRemovesChar(s: string, c: char, rep: string)
    requires c !in rep
    ensures c !in ReplaceAll(s, [c], rep)
  {
    var parts := Split(s, [c]);
    forall i | 0 <= i < |parts|
      ensures c !in parts[i]
    {
      ContainsChar(parts[i], c);
    }
    JoinAvoidsChar(parts, rep, c);
  }

  /** A join of blank pieces with a blank separator is blank, and
      conversely every piece of a blank join is blank. */
  lemma JoinAllSpace(parts: seq<string>, sep: string)
    requires AllSpace(sep)
    ensures AllSpace(Join(parts, sep)) <==> forall i :: 0 <= i < |parts| ==> AllSpace(parts[i])
    decreases |parts|
  {
    if |parts| > 1 {
      JoinAllSpace(parts[1..], sep);
      var j := Join(parts, sep);
      assert j == parts[0] + sep + Join(parts[1..], sep);
      if AllSpace(j) {
        forall i | 0 <= i < |parts|
          ensures AllSpace(parts[i])
        {
          if i == 0 {
            assert forall k :: 0 <= k < |parts[0]| ==> parts[0][k] == j[k];
          } else {
            var rest := Join(parts[1..], sep);
            assert forall k :: 0 <= k < |rest| ==> rest[k] == j[|parts[0]| + |sep| + k];
            assert parts[i] == parts[1..][i - 1];
          }
        }
      }
    }
  }

  /** Splitting joined lines at line feeds recovers the lines, when none
      of them holds a line feed. */
  lemma {:induction false} SplitJoinLines(lines: seq<string>)
    requires |lines| > 0
    requires forall i :: 0 <= i < |lines| ==> '\n' !in lines[i]
    ensures Split(Join(lines, "\n"), "\n") == lines
    decreases |lines|
  {
    var s := Join(lines, "\n");
    if |lines| == 1 {
      ContainsChar(lines[0], '\n');
    } else {
      SplitJoinLines(lines[1..]);
      SplitAfterLine(lines[0], Join(lines[1..], "\n"));
    }
  }

  /** Splitting `line + "\n" + rest` at line feeds yields `line` first. */
  lemma {:induction false} SplitAfterLine(line: string, rest: string)
    requires '\n' !in line
    ensures Split(line + "\n" + rest, "\n") == [line] + Split(rest, "\n")
    decreases |line|
  {
    var s := line + "\n" + rest;
    if line == [] {
      assert s[..1] == "\n";
      assert s[1..] == rest;
    } else {
      assert s[0] == line[0] && line[0] in line;
      assert s[..1] != "\n";
      assert s[1..] == line[1..] + "\n" + rest;
      SplitAfterLine(line[1..], rest);
      var t := Split(s[1..], "\n");
      assert t[0] == line[1..];
      assert [s[0]] + t[0] == line;
      assert t[1..] == Split(rest, "\n");
    }
  }

  /** Splitting at line feeds: the first piece is the text before the first
      line feed, and the other pieces join back to the text after it. */
  lemma SplitFirstLine(s: string)
    ensures var lines := Split(s, "\n");
      match Find(s, "\n")
      case Some(i) => |lines| > 1 && lines[0] == s[..i] && Join(lines[1..], "\n") == s[i + 1..]
      case None => |lines| == 1
  {
    match Find(s, "\n")
    case Some(i) =>
      forall k | 0 <= k < i
        ensures s[k] != '\n'
      {
        assert !OccursAt(s, "\n", k);
        assert s[k..k + 1][0] == s[k];
      }
      assert s[..i + 1][i] == s[i];
      assert s == s[..i] + "\n" + s[i + 1..];
      SplitAfterLine(s[..i], s[i + 1..]);
    case None =>
  }

  /** Joining one more piece at the end. */
  lemma {:induction false} JoinSnoc(parts: seq<string>, p: string, sep: string)
    requires |parts| >= 1
    ensures Join(parts + [p], sep) == Join(parts, sep) + sep + p
    decreases |parts|
  {
    var u := parts + [p];
    if |parts| > 1 {
      assert u[1..] == parts[1..] + [p];
      JoinSnoc(parts[1..], p, sep);
    }
  }

  /** The pieces of a split at line feeds hold no line feed. */
  lemma SplitLinesAvoid(s: string)
    ensures forall i :: 0 <= i < |Split(s, "\n")| ==> '\n' !in Split(s, "\n")[i]
  {
    var lines := Split(s, "\n");
    forall i | 0 <= i < |lines|
      ensures '\n' !in lines[i]
    {
      ContainsChar(lines[i], '\n');
    }
  }

  /** A line feed at the end adds an empty last line. */
  lemma SplitSnocLineFeed(s: string)
    ensures Split(s + "\n", "\n") == Split(s, "\n") + [""]
  {
    var lines := Split(s, "\n");
    SplitLinesAvoid(s);
    JoinSnoc(lines, "", "\n");
    var u := lines + [""];
    assert forall i :: 0 <= i < |lines| ==> u[i] == lines[i];
    assert Join(u, "\n") == s + "\n";
    SplitJoinLines(u);
  }

  /** Any other character at the end extends the last line. */
  lemma SplitSnocChar(s: string, c: char)
    requires c != '\n'
    ensures var lines := Split(s, "\n"); var n := |lines|;
      Split(s + [c], "\n") == lines[..n - 1] + [lines[n - 1] + [c]]
  {
    var lines := Split(s, "\n");
    var n := |lines|;
    var u := lines[..n - 1] + [lines[n - 1] + [c]];
    SplitLinesAvoid(s);
    assert '\n' !in lines[n - 1];
    if n == 1 {
      assert Join(u, "\n") == s + [c];
    } else {
      JoinSnoc(lines[..n - 1], lines[n - 1], "\n");
      JoinSnoc(lines[..n - 1], lines[n - 1] + [c], "\n");
      assert lines[..n - 1] + [lines[n - 1]] == lines;
    }
    assert forall i :: 0 <= i < n - 1 ==> u[i] == lines[i];
    assert '\n' !in lines[n - 1] + [c];
    assert Join(u, "\n") == s + [c];
    SplitJoinLines(u);
  }

  // ------------------------------------------------------------------
  // Case-insensitive literals (re.IGNORECASE)
  // ------------------------------------------------------------------

  /** Lower-casing of ASCII and Latin-1 capital letters. */
  function Lower(c: char): char {
    if 'A' <= c <= 'Z' || ('\U{C0}' <= c <= '\U{DE}' && c != '\U{D7}') then
      (c as int + 32) as char
    else c
  }

  /** The lower-case literal `lit` occurs at `p` ignoring case. */
  predicate MatchesIgnoreCase(s: string, p: nat, lit: string) {
    p + |lit| <= |s| && forall i :: 0 <= i < |lit| ==> Lower(s[p + i]) == lit[i]
  }

  /** The end of the maximal run of whitespace starting at `i` (a greedy
      `\s*`). */
  function SkipSpaces(s: string, i: nat): (j: nat)
    requires i <= |s|
    ensures i <= j <= |s|
    ensures forall k :: i <= k < j ==> IsSpace(s[k])
    ensures j == |s| || !IsSpace(s[j])
    decreases |s| - i
  {
    if i < |s| && IsSpace(s[i]) then SkipSpaces(s, i + 1) else i
  }

  /** A run of whitespace from `i` to a non-space (or the end) is the run
      `SkipSpaces` finds. */
  lemma SkipSpacesAt(s: string, i: nat, j: nat)
    requires i <= j <= |s|
    requires forall k :: i <= k < j ==> IsSpace(s[k])
    requires j == |s| || !IsSpace(s[j])
    ensures SkipSpaces(s, i) == j
    decreases j - i
  {
    if i < j {
      SkipSpacesAt(s, i + 1, j);
    }
  }

  /** The end of the maximal run of digits starting at `i` (a greedy `\d*`). */
  function SkipDigits(s: string, i: nat): (j: nat)
    requires i <= |s|
    ensures i <= j <= |s|
    ensures forall k :: i <= k < j ==> IsDigit(s[k])
    ensures j == |s| || !IsDigit(s[j])
    decreases |s| - i
  {
    if i < |s| && IsDigit(s[i]) then SkipDigits(s, i + 1) else i
  }

  /** A run of digits from `i` to a non-digit (or the end) is the run
      `SkipDigits` finds. */
  lemma SkipDigitsAt(s: string, i: nat, j: nat)
    requires i <= j <= |s|
    requires forall k :: i <= k < j ==> IsDigit(s[k])
    requires j == |s| || !IsDigit(s[j])
    ensures SkipDigits(s, i) == j
    decreases j - i
  {
    if i < j {
      SkipDigitsAt(s, i + 1, j);
    }
  }

  // ------------------------------------------------------------------
  // Decimal numerals: int(digits), str(n), f"{n:0w}"
  // ------------------------------------------------------------------

  function DigitValue(c: char): nat
    requires IsDigit(c)
  {
    c as int - '0' as int
  }

  function DigitChar(d: nat): (c: char)
    requires d < 10
    ensures IsDigit(c) && DigitValue(c) == d
  {
    ('0' as int + d) as char
  }

  /** Python's `int(ds)` on a string of ASCII digits (leading zeros allowed). */
  function DecimalValue(ds: string): nat
    requires AllDigits(ds)
    decreases |ds|
  {
    if ds == [] then 0
    else DecimalValue(ds[..|ds| - 1]) * 10 + DigitValue(ds[|ds| - 1])
  }

  /** Python's `str(n)` for a natural number: the shortest decimal numeral,
      which `int` reads back as `n`. */
  function Decimal(n: nat): (r: string)
    ensures r != [] && AllDigits(r)
    ensures DecimalValue(r) == n
    ensures |r| > 1 ==> r[0] != '0'
  {
    if n < 10 then [DigitChar(n)]
    else
      var r := Decimal(n / 10) + [DigitChar(n % 10)];
      assert r[..|r| - 1] == Decimal(n / 10);
      r
  }

  function Zeros(k: nat): (r: string)
    ensures |r| == k && forall i :: 0 <= i < k ==> r[i] == '0'
  {
    if k == 0 then [] else ['0'] + Zeros(k - 1)
  }

  lemma {:induction false} LeadingZeros(k: nat, ds: string)
    requires AllDigits(ds)
    ensures AllDigits(Zeros(k) + ds)
    ensures DecimalValue(Zeros(k) + ds) == DecimalValue(ds)
    decreases |ds|
  {
    var z := Zeros(k) + ds;
    if ds == [] {
      ZerosValue(k);
      assert z == Zeros(k);
    } else {
      LeadingZeros(k, ds[..|ds| - 1]);
      assert z[..|z| - 1] == Zeros(k) + ds[..|ds| - 1];
    }
  }

  lemma {:induction false} ZerosValue(k: nat)
    ensures AllDigits(Zeros(k)) && DecimalValue(Zeros(k)) == 0
  {
    if k > 0 {
      ZerosValue(k - 1);
      var z := Zeros(k);
      assert z[..|z| - 1] == Zeros(k - 1) by {
        assert forall i :: 0 <= i < k - 1 ==> z[i] == '0';
      }
    }
  }

  /** Every non-empty digit string is the numeral of its value after some
      leading zeros: `int` reads exactly what `str` writes, up to padding. */
  lemma {:induction false} DigitsAreNumeral(ds: string) returns (z: nat)
    requires ds != [] && AllDigits(ds)
    ensures ds == Zeros(z) + Decimal(DecimalValue(ds))
    decreases |ds|
  {
    var init := ds[..|ds| - 1];
    var c := ds[|ds| - 1];
    var d := DigitValue(c);
    assert DigitChar(d) == c;
    assert ds == init + [c];
    if init == [] {
      z := 0;
    } else {
      var z' := DigitsAreNumeral(init);
      var v := DecimalValue(init);
      assert DecimalValue(ds) == v * 10 + d;
      if v == 0 {
        z := z' + 1;
        ZerosSnoc(z');
        assert Decimal(0) == ['0'];
        assert init == Zeros(z);
        assert Decimal(d) == [c];
      } else {
        z := z';
        var n := v * 10 + d;
        assert n / 10 == v && n % 10 == d;
        assert Decimal(n) == Decimal(v) + [c];
      }
    }
  }

  lemma ZerosSnoc(k: nat)
    ensures Zeros(k) + ['0'] == Zeros(k + 1)
  {
    var a := Zeros(k) + ['0'];
    var b := Zeros(k + 1);
    assert |a| == |b|;
    assert forall i :: 0 <= i < |a| ==> a[i] == b[i];
  }

  /** Python's `f"{n:0{width}}"` for a natural number: `str(n)` padded on the
      left with zeros to at least `width` characters. */
  function ZeroPad(n: nat, width: nat): (r: string)
    ensures AllDigits(r)
    ensures |r| == if |Decimal(n)| < width then width else |Decimal(n)|
    ensures DecimalValue(r) == n
  {
    var d := Decimal(n);
    var k := if |d| < width then width - |d| else 0;
    LeadingZeros(k, d);
    Zeros(k) + d
  }
}
