/**
  Field extraction for one exercise chunk in `parse_exercises`: the meta
  annotation, the official answer, the question/commentary split and the
  three fallback corrections. Every regular expression of the source is a
  scanner that decides a match at one position; `Leftmost` turns it into
  `re.search`.
*/
module Fields {
  import opened Wrappers
  import opened Strings

  // ------------------------------------------------------------------
  // Meta: re.search(r"\((.*?)\)", content)
  // ------------------------------------------------------------------

  /** A `(` at `p` whose lazy group ends at the `)` at `j`: no `)` and no
      line feed (which `.` does not match) lie between them. */
  predicate GroupCloses(s: string, p: nat, j: nat) {
    p < j < |s| && s[p] == '(' && s[j] == ')' && forall k :: p < k < j ==> s[k] != ')' && s[k] != '\n'
  }

  /** The first `)` or line feed at or after `i`, or the end. */
  function StopIndex(s: string, i: nat): (k: nat)
    requires i <= |s|
    ensures i <= k <= |s|
    ensures forall j :: i <= j < k ==> s[j] != ')' && s[j] != '\n'
    ensures k < |s| ==> s[k] == ')' || s[k] == '\n'
    decreases |s| - i
  {
    if i == |s| || s[i] == ')' || s[i] == '\n' then i else StopIndex(s, i + 1)
  }

  /** The closing parenthesis of the group opened at `p`, if it closes on
      the same line. */
  function CloseParenAt(s: string, p: nat): (r: Option<nat>)
    ensures r.Some? ==> GroupCloses(s, p, r.value)
    ensures r.None? ==> forall j :: !GroupCloses(s, p, j)
  {
    if p < |s| && s[p] == '(' then
      var k := StopIndex(s, p + 1);
      if k < |s| && s[k] == ')' then Some(k) else None
    else None
  }

  /** `meta`: the stripped text of the first parenthesised group that closes
      on its own line, or `""` when there is none. It holds no `)` and no
      line feed. */
  function ExtractMeta(content: string): (meta: string)
    ensures ')' !in meta && '\n' !in meta && IsStripped(meta)
    ensures (forall p, j :: !GroupCloses(content, p, j)) ==> meta == ""
  {
    match Leftmost(content, 0, CloseParenAt)
    case Some((p, j)) =>
      var g := content[p + 1..j];
      StripWithin(g, ')');
      StripWithin(g, '\n');
      Strip(g)
    case None =>
      NoGroupAnywhere(content);
      ""
  }

  lemma NoGroupAnywhere(content: string)
    requires forall k :: 0 <= k <= |content| ==> CloseParenAt(content, k).None?
    ensures forall p, j :: !GroupCloses(content, p, j)
  {
    forall p: nat, j: nat
      ensures !GroupCloses(content, p, j)
    {
      if p <= |content| {
        assert CloseParenAt(content, p).None?;
      }
    }
  }

  /** The meta is taken from the leftmost group: when `(p, j)` is a group
      and no group opens before `p`, the meta is its stripped text. */
  lemma MetaIsFirstGroup(content: string, p: nat, j: nat)
    requires GroupCloses(content, p, j)
    requires forall p': nat, j': nat :: p' < p ==> !GroupCloses(content, p', j')
    ensures ExtractMeta(content) == Strip(content[p + 1..j])
  {
    var r := CloseParenAt(content, p);
    assert r.Some?;
    GroupUnique(content, p, j, r.value);
    forall k: nat | k < p
      ensures CloseParenAt(content, k).None?
    {
    }
    LeftmostIs(content, 0, CloseParenAt, p, j);
  }

  /** A group closes at one place only: the first `)` after it. */
  lemma GroupUnique(s: string, p: nat, j: nat, j': nat)
    requires GroupCloses(s, p, j) && GroupCloses(s, p, j')
    ensures j == j'
  {
  }

  /** The text `content.replace(f"({meta})", "").strip()` that every later
      rule reads. */
  function CleanContent(content: string, meta: string): string {
    Strip(ReplaceAll(content, "(" + meta + ")", ""))
  }

  /** When the group needs no stripping, the parenthesised meta first
      occurs exactly where the group was found, so that span is among the
      occurrences the replace removes. */
  lemma MetaSpanIsFirstOccurrence(content: string, p: nat, j: nat)
    requires GroupCloses(content, p, j)
    requires forall p': nat, j': nat :: p' < p ==> !GroupCloses(content, p', j')
    requires IsStripped(content[p + 1..j])
    ensures Find(content, "(" + ExtractMeta(content) + ")") == Some(p)
  {
    var meta := ExtractMeta(content);
    MetaIsFirstGroup(content, p, j);
    StripOfStripped(content[p + 1..j]);
    assert meta == content[p + 1..j];
    var pat := "(" + meta + ")";
    ParenSpan(content, p, j);
    assert OccursAt(content, pat, p);
    forall q: nat | q < p && OccursAt(content, pat, q)
      ensures false
    {
      OccurrenceIsGroup(content, meta, q);
    }
    var r := Find(content, pat);
    assert r != None;
  }

  lemma ParenSpan(s: string, p: nat, j: nat)
    requires p < j < |s| && s[p] == '(' && s[j] == ')'
    ensures s[p..j + 1] == "(" + s[p + 1..j] + ")"
  {
    assert s[p..j + 1] == [s[p]] + s[p + 1..j] + [s[j]];
  }

  /** An occurrence of `(meta)`, for a meta with no `)` and no line feed,
      is a group. */
  lemma OccurrenceIsGroup(content: string, meta: string, q: nat)
    requires ')' !in meta && '\n' !in meta
    requires OccursAt(content, "(" + meta + ")", q)
    ensures GroupCloses(content, q, q + |meta| + 1)
  {
    var pat := "(" + meta + ")";
    assert content[q..q + |pat|] == pat;
    forall k | q < k < q + |meta| + 1
      ensures content[k] != ')' && content[k] != '\n'
    {
      assert content[k] == pat[k - q];
      assert pat[k - q] == meta[k - q - 1];
    }
  }

  /** Removing every occurrence can splice a new one together: after the
      replace, `"(a)((a)a)"` still contains `"(a)"`. The content the later
      rules read is therefore not free of the parenthesised meta in
      general. */
  lemma MetaRemovalCanLeaveOccurrence(x: char)
    requires !IsSpace(x) && x != '(' && x != ')' && x != '\n'
    ensures var content := ['(', x, ')', '(', '(', x, ')', x, ')'];
      && ExtractMeta(content) == [x]
      && CleanContent(content, [x]) == ['(', x, ')']
  {
    var content := ['(', x, ')', '(', '(', x, ')', x, ')'];
    SampleMeta(x);
    SampleReplace(x);
    assert "(" + [x] + ")" == ['(', x, ')'];
    StripOfStripped(['(', x, ')']);
    assert CleanContent(content, [x]) == Strip(ReplaceAll(content, ['(', x, ')'], ""));
  }

  lemma SampleMeta(x: char)
    requires !IsSpace(x) && x != '(' && x != ')' && x != '\n'
    ensures ExtractMeta(['(', x, ')', '(', '(', x, ')', x, ')']) == [x]
  {
    var content := ['(', x, ')', '(', '(', x, ')', x, ')'];
    assert content[1..2] == [x];
    assert GroupCloses(content, 0, 2);
    MetaIsFirstGroup(content, 0, 2);
    StripOfStripped([x]);
  }

  lemma SampleReplace(x: char)
    requires x != '(' && x != ')'
    ensures ReplaceAll(['(', x, ')', '(', '(', x, ')', x, ')'], ['(', x, ')'], "") == ['(', x, ')']
  {
    var t1 := [x, ')'];
    SampleSplit(x);
    assert Join([['('], t1], "") == ['('] + t1;
    assert Join(["", ['('], t1], "") == ['('] + t1;
  }

  /** The pieces of the sample around its two occurrences of `(x)`. */
  lemma SampleSplit(x: char)
    requires x != '(' && x != ')'
    ensures Split(['(', x, ')', '(', '(', x, ')', x, ')'], ['(', x, ')']) == ["", ['('], [x, ')']]
  {
    var content := ['(', x, ')', '(', '(', x, ')', x, ')'];
    var pat := ['(', x, ')'];
    var t3 := ['(', '(', x, ')', x, ')'];
    SampleSplitInner(x);
    assert content[..3] == pat;
    assert content[3..] == t3;
    SplitAtStart(content, pat);
  }

  lemma SampleSplitInner(x: char)
    requires x != '(' && x != ')'
    ensures Split(['(', '(', x, ')', x, ')'], ['(', x, ')']) == [['('], [x, ')']]
  {
    var pat := ['(', x, ')'];
    var t2 := ['(', x, ')', x, ')'];
    var t3 := ['(', '(', x, ')', x, ')'];
    SampleSplitTail(x);
    assert t3[..3][1] != pat[1];
    assert t3[1..] == t2;
    SplitPastStart(t3, pat);
    assert [t3[0]] + "" == ['('];
  }

  lemma SampleSplitTail(x: char)
    requires x != '(' && x != ')'
    ensures Split(['(', x, ')', x, ')'], ['(', x, ')']) == ["", [x, ')']]
  {
    var pat := ['(', x, ')'];
    var t1 := [x, ')'];
    var t2 := ['(', x, ')', x, ')'];
    assert Split(t1, pat) == [t1];
    assert t2[..3] == pat;
    assert t2[3..] == t1;
    SplitAtStart(t2, pat);
  }

  // ------------------------------------------------------------------
  // Answer: the two "Gabarito" patterns
  // ------------------------------------------------------------------

  /** The values an answer can take. */
  predicate IsAnswer(a: string) {
    a == "" || a == "Correto" || a == "Errado" || (|a| == 1 && 'A' <= a[0] <= 'E')
  }

  /** `[i, j)` is a run of whitespace in `s` (what `\s*` consumes). */
  predicate SpaceRun(s: string, i: nat, j: nat) {
    i <= j <= |s| && forall k :: i <= k < j ==> IsSpace(s[k])
  }

  /** A match of `Gabarito:\s*(Correto|Errado)`, ignoring case, that starts
      at `p` and has its word at `q`; `w` is the word capitalised. */
  predicate VerdictMatch(s: string, p: nat, q: nat, w: string) {
    && MatchesIgnoreCase(s, p, "gabarito:")
    && SpaceRun(s, p + 9, q)
    && ((w == "Correto" && MatchesIgnoreCase(s, q, "correto"))
        || (w == "Errado" && MatchesIgnoreCase(s, q, "errado")))
  }

  /** The verdict scanner at one position: the capitalised word of the
      match of `Gabarito:\s*(Correto|Errado)` at `p`, ignoring case. */
  function VerdictAt(s: string, p: nat): (r: Option<string>)
    ensures r.Some? ==> p < |s| && (r.value == "Correto" || r.value == "Errado")
    ensures r.Some? ==> exists q: nat :: VerdictMatch(s, p, q, r.value)
  {
    if MatchesIgnoreCase(s, p, "gabarito:") then
      var q := SkipSpaces(s, p + 9);
      if MatchesIgnoreCase(s, q, "correto") then
        assert VerdictMatch(s, p, q, "Correto");
        Some("Correto")
      else if MatchesIgnoreCase(s, q, "errado") then
        assert VerdictMatch(s, p, q, "Errado");
        Some("Errado")
      else None
    else None
  }

  /** Whatever match starts at `p`, the scanner reports its word: `\s*`
      must stop at the word's first letter, so the run is the maximal one. */
  lemma VerdictAtComplete(s: string, p: nat, q: nat, w: string)
    requires VerdictMatch(s, p, q, w)
    ensures VerdictAt(s, p) == Some(w)
  {
    if w == "Correto" {
      assert Lower(s[q + 0]) == "correto"[0];
    } else {
      assert Lower(s[q + 0]) == "errado"[0];
      FirstLetterDiffers(s, q, "correto");
    }
    assert !IsSpace(s[q]);
    SkipSpacesAt(s, p + 9, q);
  }

  /** A literal whose first letter differs from `s[q]` does not match at `q`. */
  lemma FirstLetterDiffers(s: string, q: nat, lit: string)
    requires q < |s| && lit != [] && Lower(s[q]) != lit[0]
    ensures !MatchesIgnoreCase(s, q, lit)
  {
    var i := 0;
    assert Lower(s[q + i]) != lit[i];
  }

  /** A match of `Gabarito\s*(?:letra|Letra)\s*([A-E])`, case-sensitive,
      that starts at `p`, with `letra` at `q` and its letter at `l`. */
  predicate LetterMatch(s: string, p: nat, q: nat, l: nat) {
    && OccursAt(s, "Gabarito", p)
    && SpaceRun(s, p + 8, q)
    && (OccursAt(s, "letra", q) || OccursAt(s, "Letra", q))
    && SpaceRun(s, q + 5, l)
    && l < |s| && 'A' <= s[l] <= 'E'
  }

  /** The letter scanner at one position: the letter of the match of
      `Gabarito\s*(?:letra|Letra)\s*([A-E])` at `p`. */
  function LetterAt(s: string, p: nat): (r: Option<string>)
    ensures r.Some? ==> p < |s| && |r.value| == 1 && 'A' <= r.value[0] <= 'E'
    ensures r.Some? ==> exists q: nat, l: nat :: LetterMatch(s, p, q, l) && r.value == [s[l]]
  {
    if OccursAt(s, "Gabarito", p) then
      var q := SkipSpaces(s, p + 8);
      if OccursAt(s, "letra", q) || OccursAt(s, "Letra", q) then
        var l := SkipSpaces(s, q + 5);
        if l < |s| && 'A' <= s[l] <= 'E' then
          assert LetterMatch(s, p, q, l);
          Some([s[l]])
        else None
      else None
    else None
  }

  /** Whatever match starts at `p`, the scanner reports its letter. */
  lemma LetterAtComplete(s: string, p: nat, q: nat, l: nat)
    requires LetterMatch(s, p, q, l)
    ensures LetterAt(s, p) == Some([s[l]])
  {
    assert !IsSpace(s[q]) by {
      assert s[q] == s[q..q + 5][0];
    }
    SkipSpacesAt(s, p + 8, q);
    assert !IsSpace(s[l]);
    SkipSpacesAt(s, q + 5, l);
    assert SkipSpaces(s, p + 8) == q && SkipSpaces(s, q + 5) == l;
  }

  ghost predicate HasVerdict(s: string) {
    exists k: nat :: VerdictAt(s, k).Some?
  }

  ghost predicate HasLetter(s: string) {
    exists k: nat :: LetterAt(s, k).Some?
  }

  /** The answer before the fallbacks: a `Gabarito: Correto/Errado` marker
      wins over a `Gabarito letra X` marker anywhere in the text; with
      neither, the answer is empty. */
  function ExtractAnswer(s: string): (a: string)
    ensures IsAnswer(a)
    ensures HasVerdict(s) ==> a == "Correto" || a == "Errado"
    ensures !HasVerdict(s) && HasLetter(s) ==> |a| == 1 && 'A' <= a[0] <= 'E'
    ensures !HasVerdict(s) && !HasLetter(s) ==> a == ""
    ensures HasVerdict(s) ==>
      exists k: nat :: k <= |s| && VerdictAt(s, k) == Some(a) && forall j: nat :: j < k ==> VerdictAt(s, j).None?
    ensures !HasVerdict(s) && HasLetter(s) ==>
      exists k: nat :: k <= |s| && LetterAt(s, k) == Some(a) && forall j: nat :: j < k ==> LetterAt(s, j).None?
  {
    match Leftmost(s, 0, VerdictAt)
    case Some((_, w)) => w
    case None =>
      assert !HasVerdict(s) by {
        forall k: nat
          ensures VerdictAt(s, k).None?
        {
          if k <= |s| {
            assert VerdictAt(s, k).None?;
          }
        }
      }
      match Leftmost(s, 0, LetterAt)
      case Some((_, l)) => l
      case None =>
        assert !HasLetter(s) by {
          forall k: nat
            ensures LetterAt(s, k).None?
          {
            if k <= |s| {
              assert LetterAt(s, k).None?;
            }
          }
        }
        ""
  }

  // ------------------------------------------------------------------
  // Question / commentary split
  // ------------------------------------------------------------------

  /** `Coment[aá]rios?:` at `p`, case-sensitive; the end of the label. */
  function CommentLabelAt(s: string, p: nat): (r: Option<nat>)
    ensures r.Some? ==> p + 11 <= r.value <= |s|
  {
    if p + 10 <= |s| && s[p..p + 6] == "Coment" && (s[p + 6] == 'a' || s[p + 6] == '\U{E1}')
       && s[p + 7..p + 10] == "rio"
    then
      if p + 12 <= |s| && s[p + 10] == 's' && s[p + 11] == ':' then Some(p + 12)
      else if p + 11 <= |s| && s[p + 10] == ':' then Some(p + 11)
      else None
    else None
  }

  /** An alternative marker `\n[A-E])` at `q`. Two markers never overlap
      (a marker's second and third characters are not line feeds), so the
      last match of `re.finditer` is the rightmost marker. */
  predicate AltAt(s: string, q: nat) {
    q + 3 <= |s| && s[q] == '\n' && 'A' <= s[q + 1] <= 'E' && s[q + 2] == ')'
  }

  ghost predicate HasAlt(s: string) {
    exists q: nat :: AltAt(s, q)
  }

  /** The rightmost alternative marker starting before `hi`. */
  function LastAlt(s: string, hi: nat): (r: Option<nat>)
    requires hi <= |s|
    ensures r.Some? ==> r.value < hi && AltAt(s, r.value)
    decreases hi
  {
    if hi == 0 then None
    else if AltAt(s, hi - 1) then Some(hi - 1)
    else LastAlt(s, hi - 1)
  }

  /** `LastAlt` misses no marker: none lies after the one it finds, and
      when it finds none there is none below `hi`. */
  lemma {:induction false} LastAltIsLast(s: string, hi: nat)
    requires hi <= |s|
    ensures LastAlt(s, hi).Some? ==> forall k: nat :: LastAlt(s, hi).value < k < hi ==> !AltAt(s, k)
    ensures LastAlt(s, hi).None? ==> forall k: nat :: k < hi ==> !AltAt(s, k)
    decreases hi
  {
    if hi > 0 && !AltAt(s, hi - 1) {
      LastAltIsLast(s, hi - 1);
    }
  }

  /** The last marker is found exactly when there is one; it is the
      rightmost. */
  lemma LastAltFindsAny(s: string)
    ensures LastAlt(s, |s|).None? <==> !HasAlt(s)
    ensures LastAlt(s, |s|).Some? ==> forall k: nat :: LastAlt(s, |s|).value < k ==> !AltAt(s, k)
  {
    LastAltIsLast(s, |s|);
    if LastAlt(s, |s|).Some? {
      assert AltAt(s, LastAlt(s, |s|).value);
    }
  }

  datatype Body = Body(question: string, commentary: string)

  /** The text before the first literal `Gabarito`, stripped; all of `s`
      when there is none. */
  function BeforeGabarito(s: string): string {
    match Find(s, "Gabarito")
    case Some(g) => Strip(s[..g])
    case None => s
  }

  /** The question/commentary split, before the fallbacks. The first
      `Comentário:`/`Comentários:` label splits the text; otherwise the text
      before `Gabarito` is split right after its last alternative marker,
      and without one it is all question. On stripped input, both parts are
      stripped. */
  function SplitQuestion(s: string): (r: Body)
    ensures IsStripped(s) ==> IsStripped(r.question) && IsStripped(r.commentary)
  {
    match Leftmost(s, 0, CommentLabelAt)
    case Some((p, e)) => Body(Strip(s[..p]), Strip(s[e..]))
    case None => SplitAfterAlt(BeforeGabarito(s))
  }

  /** The split after the last alternative marker; without one, all of
      `before` is question. */
  function SplitAfterAlt(before: string): (r: Body)
    ensures IsStripped(before) ==> IsStripped(r.question) && IsStripped(r.commentary)
  {
    var last := LastAlt(before, |before|);
    if last.Some? then SplitAt(before, last.value + 3) else Body(before, "")
  }

  /** Question and commentary on either side of `k`, stripped. */
  function SplitAt(s: string, k: nat): (r: Body)
    requires k <= |s|
    ensures IsStripped(r.question) && IsStripped(r.commentary)
  {
    Body(Strip(s[..k]), Strip(s[k..]))
  }

  /** A label scan that fails on `s` fails on its prefixes too. */
  lemma CommentLabelPrefix(s: string, p: nat, k: nat)
    requires p <= |s| && k <= p
    requires CommentLabelAt(s[..p], k).Some?
    ensures CommentLabelAt(s, k) == CommentLabelAt(s[..p], k)
  {
    var t := s[..p];
    assert t[k..k + 6] == s[k..k + 6];
    assert t[k + 7..k + 10] == s[k + 7..k + 10];
  }

  /** With a `Comentário(s):` label, the question is the stripped text
      before the first label and the commentary the stripped text after it;
      the question holds no label. */
  lemma CommentLabelSplit(s: string, p: nat, e: nat)
    requires CommentLabelAt(s, p) == Some(e)
    requires forall k: nat :: k < p ==> CommentLabelAt(s, k).None?
    ensures SplitQuestion(s) == Body(Strip(s[..p]), Strip(s[e..]))
    ensures forall k: nat :: k <= |s[..p]| ==> CommentLabelAt(s[..p], k).None?
  {
    assert p <= |s|;
    LeftmostIs(s, 0, CommentLabelAt, p, e);
    forall k: nat | k <= |s[..p]|
      ensures CommentLabelAt(s[..p], k).None?
    {
      CommentLabelBeforeNone(s, p, k);
    }
  }

  /** Before the first label of `s`, a prefix of `s` ending at it holds no
      label either. */
  lemma CommentLabelBeforeNone(s: string, p: nat, k: nat)
    requires p <= |s| && k <= p
    requires forall j: nat :: j < p ==> CommentLabelAt(s, j).None?
    ensures CommentLabelAt(s[..p], k).None?
  {
    if k < p {
      if CommentLabelAt(s[..p], k).Some? {
        CommentLabelPrefix(s, p, k);
      }
    }
  }

  /** Without a label, when the text before `Gabarito` holds an alternative
      marker, the question ends with the last marker's `X)` and the
      commentary holds no marker. */
  lemma AlternativesSplit(s: string)
    requires forall k: nat :: k <= |s| ==> CommentLabelAt(s, k).None?
    requires HasAlt(BeforeGabarito(s))
    ensures var q := SplitQuestion(s).question;
      |q| >= 2 && q[|q| - 1] == ')' && 'A' <= q[|q| - 2] <= 'E'
    ensures !HasAlt(SplitQuestion(s).commentary)
  {
    LeftmostNone(s, 0, CommentLabelAt);
    SplitAfterAltShape(BeforeGabarito(s));
  }

  /** Without a label, with `q` the last alternative marker in the text
      before `Gabarito`: the question is that text up to the end of the
      marker's `X)`, the commentary the text after it, both stripped. */
  lemma AlternativesSplitAt(s: string, q: nat)
    requires forall k: nat :: k <= |s| ==> CommentLabelAt(s, k).None?
    requires AltAt(BeforeGabarito(s), q)
    requires forall k: nat :: q < k ==> !AltAt(BeforeGabarito(s), k)
    ensures var b := BeforeGabarito(s);
      SplitQuestion(s) == Body(Strip(b[..q + 3]), Strip(b[q + 3..]))
  {
    LeftmostNone(s, 0, CommentLabelAt);
    SplitAfterAltAt(BeforeGabarito(s), q);
  }

  /** The split after the last alternative marker `q` cuts right after the
      marker's `X)`. */
  lemma SplitAfterAltAt(before: string, q: nat)
    requires AltAt(before, q)
    requires forall k: nat :: q < k ==> !AltAt(before, k)
    ensures SplitAfterAlt(before) == Body(Strip(before[..q + 3]), Strip(before[q + 3..]))
  {
    LastAltIs(before, q);
    SplitAfterFound(before, q);
  }

  /** The split when `LastAlt` finds `q`, field by field. */
  /** The question of the split when `LastAlt` finds `q`. */
  /** The split when `LastAlt` finds `q`. */
  /** The split when `LastAlt` finds `q`. */
  lemma SplitAfterFound(before: string, q: nat)
    requires q + 3 <= |before|
    requires LastAlt(before, |before|) == Some(q)
    ensures SplitAfterAlt(before) == SplitAt(before, q + 3)
  {
    var last := LastAlt(before, |before|);
    assert last.Some? && last.value + 3 == q + 3;
  }

  /** The marker with none after it is the one `LastAlt` finds. */
  lemma LastAltIs(before: string, q: nat)
    requires AltAt(before, q)
    requires forall k: nat :: q < k ==> !AltAt(before, k)
    ensures LastAlt(before, |before|) == Some(q)
  {
    LastAltIsLast(before, |before|);
    var r := LastAlt(before, |before|);
    assert r.Some? by {
      assert q < |before|;
    }
    var l := r.value;
    assert AltAt(before, l);
    assert l <= q;
    assert q <= l;
  }

  /** Without a label and without an alternative marker before `Gabarito`,
      the question is all of the text before `Gabarito` and the commentary
      is empty. */
  lemma NoAlternativesSplit(s: string)
    requires forall k: nat :: k <= |s| ==> CommentLabelAt(s, k).None?
    requires !HasAlt(BeforeGabarito(s))
    ensures SplitQuestion(s) == Body(BeforeGabarito(s), "")
  {
    LeftmostNone(s, 0, CommentLabelAt);
    LastAltFindsAny(BeforeGabarito(s));
  }

  /** With an alternative marker, the question ends with the last marker's
      `X)` and the commentary holds no marker. */
  lemma SplitAfterAltShape(before: string)
    requires HasAlt(before)
    ensures var q := SplitAfterAlt(before).question;
      |q| >= 2 && q[|q| - 1] == ')' && 'A' <= q[|q| - 2] <= 'E'
    ensures !HasAlt(SplitAfterAlt(before).commentary)
  {
    var q := RightmostAlt(before);
    SplitAfterAltAt(before, q);
    SplitAtAltShape(before, q);
  }

  /** A text with an alternative marker has a rightmost one. */
  lemma RightmostAlt(before: string) returns (q: nat)
    requires HasAlt(before)
    ensures AltAt(before, q)
    ensures forall k: nat :: q < k ==> !AltAt(before, k)
  {
    LastAltFindsAny(before);
    q := LastAlt(before, |before|).value;
  }

  /** Split right after a marker with no marker after it: the question ends
      with the marker's `X)` and the commentary holds no marker. */
  lemma SplitAtAltShape(before: string, q: nat)
    requires q + 3 <= |before| && AltAt(before, q)
    requires forall k: nat :: q < k ==> !AltAt(before, k)
    ensures var b := SplitAt(before, q + 3);
      |b.question| >= 2 && b.question[|b.question| - 1] == ')' && 'A' <= b.question[|b.question| - 2] <= 'E'
    ensures !HasAlt(SplitAt(before, q + 3).commentary)
  {
    var head := before[..q + 3];
    assert head[|head| - 1] == ')' && 'A' <= head[|head| - 2] <= 'E';
    StripKeepsEnd(head);
    TailHoldsNoAlt(before, q);
  }

  /** After the last alternative marker, the stripped rest holds none. */
  lemma TailHoldsNoAlt(before: string, q: nat)
    requires q + 3 <= |before|
    requires forall k: nat :: q < k ==> !AltAt(before, k)
    ensures !HasAlt(Strip(before[q + 3..]))
  {
    var tail := before[q + 3..];
    var c := Strip(tail);
    var i := SkipSpaces(tail, 0);
    StripShape(tail);
    SliceOfSlice(before, q + 3, i, i + |c|);
    forall k: nat
      ensures !AltAt(c, k)
    {
      if AltAt(c, k) {
        AltInSlice(before, q + 3 + i, q + 3 + i + |c|, k);
      }
    }
  }

  /** A slice of a suffix is a slice of the whole text. */
  lemma SliceOfSlice(t: string, a: nat, b: nat, c: nat)
    requires a <= |t| && b <= c <= |t| - a
    ensures t[a..][b..c] == t[a + b..a + c]
  {
  }

  /** A marker in a slice is a marker of the whole text. */
  lemma AltInSlice(t: string, a: nat, b: nat, k: nat)
    requires a <= b <= |t| && AltAt(t[a..b], k)
    ensures AltAt(t, a + k)
  {
    var c := t[a..b];
    assert c[k] == t[a + k] && c[k + 1] == t[a + k + 1] && c[k + 2] == t[a + k + 2];
  }

  /** Stripping text that ends in two non-blank characters keeps them. */
  lemma StripKeepsEnd(x: string)
    requires |x| >= 2 && !IsSpace(x[|x| - 1]) && !IsSpace(x[|x| - 2])
    ensures var r := Strip(x);
      |r| >= 2 && r[|r| - 1] == x[|x| - 1] && r[|r| - 2] == x[|x| - 2]
  {
    var r := Strip(x);
    var i := SkipSpaces(x, 0);
    StripShape(x);
    assert i + |r| == |x|;
    assert i <= |x| - 2;
  }

  // ------------------------------------------------------------------
  // Fallback corrections
  // ------------------------------------------------------------------

  datatype Parts = Parts(question: string, commentary: string, answer: string)

  /** A match of `Quest[aã]o\s+(correta|errada)`, ignoring case, that
      starts at `p` and has its word at `q`; `w` is the verdict it stands
      for: `Correto` for `correta`, `Errado` for `errada`. */
  predicate QuestaoMatch(s: string, p: nat, q: nat, w: string) {
    && MatchesIgnoreCase(s, p, "quest") && p + 7 <= |s|
    && (Lower(s[p + 5]) == 'a' || Lower(s[p + 5]) == '\U{E3}') && Lower(s[p + 6]) == 'o'
    && p + 7 < q && SpaceRun(s, p + 7, q)
    && ((w == "Correto" && MatchesIgnoreCase(s, q, "correta"))
        || (w == "Errado" && MatchesIgnoreCase(s, q, "errada")))
  }

  /** The `Questão` scanner at one position: the verdict of the match of
      `Quest[aã]o\s+(correta|errada)` at `p`, ignoring case. */
  function QuestaoAt(s: string, p: nat): (r: Option<string>)
    ensures r.Some? ==> p < |s| && (r.value == "Correto" || r.value == "Errado")
    ensures r.Some? ==> exists q: nat :: QuestaoMatch(s, p, q, r.value)
  {
    if MatchesIgnoreCase(s, p, "quest") && p + 7 <= |s|
       && (Lower(s[p + 5]) == 'a' || Lower(s[p + 5]) == '\U{E3}') && Lower(s[p + 6]) == 'o'
    then
      var q := SkipSpaces(s, p + 7);
      if q == p + 7 then None
      else if MatchesIgnoreCase(s, q, "correta") then
        assert QuestaoMatch(s, p, q, "Correto");
        Some("Correto")
      else if MatchesIgnoreCase(s, q, "errada") then
        assert QuestaoMatch(s, p, q, "Errado");
        Some("Errado")
      else None
    else None
  }

  /** Whatever match starts at `p`, the scanner reports its verdict. */
  lemma QuestaoAtComplete(s: string, p: nat, q: nat, w: string)
    requires QuestaoMatch(s, p, q, w)
    ensures QuestaoAt(s, p) == Some(w)
  {
    if w == "Correto" {
      assert Lower(s[q + 0]) == "correta"[0];
    } else {
      assert Lower(s[q + 0]) == "errada"[0];
      FirstLetterDiffers(s, q, "correta");
    }
    assert !IsSpace(s[q]);
    SkipSpacesAt(s, p + 7, q);
  }

  ghost predicate HasQuestao(s: string) {
    exists k: nat :: QuestaoAt(s, k).Some?
  }

  /** Fallback 1: with no answer yet, a `Questão correta/errada` phrase
      sets it and, when the text has several lines, makes the first line
      the question and the remaining lines the commentary. */
  function QuestaoRule(clean: string, f: Parts): (r: Parts)
    ensures f.answer != "" ==> r == f
    ensures r.answer == f.answer || (f.answer == "" && (r.answer == "Correto" || r.answer == "Errado"))
    ensures IsStripped(f.question) && IsStripped(f.commentary) ==> IsStripped(r.question) && IsStripped(r.commentary)
    ensures f.answer == "" && !HasQuestao(clean) ==> r == f
    ensures f.answer == "" && HasQuestao(clean) ==>
      exists k: nat :: k <= |clean| && QuestaoAt(clean, k) == Some(r.answer) && forall j: nat :: j < k ==> QuestaoAt(clean, j).None?
    ensures f.answer == "" && HasQuestao(clean) ==>
      match Find(clean, "\n")
      case Some(i) => r.question == Strip(clean[..i]) && r.commentary == Strip(clean[i + 1..])
      case None => r.question == f.question && r.commentary == f.commentary
  {
    if f.answer != "" then f
    else
      match Leftmost(clean, 0, QuestaoAt)
      case None =>
        assert !HasQuestao(clean) by {
          forall k: nat
            ensures QuestaoAt(clean, k).None?
          {
            if k <= |clean| {
              assert QuestaoAt(clean, k).None?;
            }
          }
        }
        f
      case Some((_, v)) =>
        var lines := Split(clean, "\n");
        SplitFirstLine(clean);
        if |lines| > 1 then Parts(Strip(lines[0]), Strip(Join(lines[1..], "\n")), v)
        else f.(answer := v)
  }

  /** Fallback 2: an answered exercise with a blank commentary gets the
      answer as commentary. */
  function EchoAnswerRule(f: Parts): (r: Parts)
    ensures r.answer == f.answer && r.question == f.question
    ensures IsAnswer(f.answer) && r.answer != "" ==> Strip(r.commentary) != ""
    ensures Strip(f.commentary) != "" ==> r == f
    ensures f.answer == "" ==> r == f
    ensures f.answer != "" && Strip(f.commentary) == "" ==> r.commentary == f.answer
  {
    if f.answer != "" && Strip(f.commentary) == "" then
      assert IsAnswer(f.answer) ==> !IsSpace(f.answer[0]);
      f.(commentary := f.answer)
    else f
  }

  /** `(?<=\.)\s+` at `p`: whitespace right after a period; the end of the
      whitespace run. */
  function SentenceBreakAt(s: string, p: nat): (r: Option<nat>)
    ensures r.Some? ==> 0 < p < r.value <= |s| && s[p - 1] == '.' && IsSpace(s[p])
  {
    if 0 < p < |s| && s[p - 1] == '.' && IsSpace(s[p]) then Some(SkipSpaces(s, p)) else None
  }

  /** `re.split(r"(?<=\.)\s+", s)`: the sentences of `s`. */
  function Sentences(s: string): (r: seq<string>)
    ensures |r| >= 1
    decreases |s|
  {
    match Leftmost(s, 0, SentenceBreakAt)
    case None => [s]
    case Some((k, e)) => [s[..k]] + Sentences(s[e..])
  }

  /** `k` is the first sentence break of `s`: the first whitespace right
      after a period. */
  predicate FirstBreak(s: string, k: nat) {
    && 0 < k < |s| && s[k - 1] == '.' && IsSpace(s[k])
    && forall p: nat :: 0 < p < k ==> !(s[p - 1] == '.' && IsSpace(s[p]))
  }

  /** The first sentence is the text before the first break. */
  lemma FirstSentenceIs(s: string, k: nat)
    requires FirstBreak(s, k)
    ensures Sentences(s)[0] == s[..k]
  {
    forall j: nat | j < k
      ensures SentenceBreakAt(s, j).None?
    {
    }
    LeftmostIs(s, 0, SentenceBreakAt, k, SkipSpaces(s, k));
  }

  /** `ss[0] + ws[0] + ss[1] + … + ws[n - 2] + ss[n - 1]`. */
  function Interleave(ss: seq<string>, ws: seq<string>): string
    requires |ss| == |ws| + 1
    decreases |ws|
  {
    if ws == [] then ss[0] else ss[0] + ws[0] + Interleave(ss[1..], ws[1..])
  }

  /** The sentences, with the whitespace runs the split removed put back
      between them, give `s` back: nothing is lost or reordered. */
  lemma {:induction false} SentencesRebuild(s: string)
    ensures exists ws: seq<string> :: Separates(Sentences(s), ws, s)
    decreases |s|
  {
    match Leftmost(s, 0, SentenceBreakAt)
    case None =>
      assert Separates(Sentences(s), [], s);
    case Some((k, e)) =>
      var rest := s[e..];
      SentencesRebuild(rest);
      var ws' :| Separates(Sentences(rest), ws', rest);
      SentencesCons(s, k, e);
      SentencesHead(rest);
      InterleaveCons(s, k, e, Sentences(rest), ws');
  }

  /** The first sentence starts the text: it is empty only for empty text
      and otherwise begins with the text's first character. */
  lemma SentencesHead(t: string)
    ensures t == [] || (Sentences(t)[0] != [] && Sentences(t)[0][0] == t[0])
  {
  }

  /** `ws` are whole whitespace runs that, put back between the pieces
      `ss`, give `s`: each run is non-empty, and no piece after a run
      starts with whitespace, so the run is the greedy `\s+`. */
  ghost predicate Separates(ss: seq<string>, ws: seq<string>, s: string) {
    && |ws| + 1 == |ss|
    && (forall i :: 0 <= i < |ws| ==> ws[i] != [] && AllSpace(ws[i]))
    && (forall i :: 0 < i < |ss| ==> ss[i] == [] || !IsSpace(ss[i][0]))
    && Interleave(ss, ws) == s
  }

  /** One split step: the sentence before the leftmost break, then the
      sentences of the text after its whitespace run. */
  lemma SentencesCons(s: string, k: nat, e: nat)
    requires Leftmost(s, 0, SentenceBreakAt) == Some((k, e))
    ensures 0 < k < e <= |s| && AllSpace(s[k..e])
    ensures e == |s| || !IsSpace(s[e])
    ensures Sentences(s) == [s[..k]] + Sentences(s[e..])
  {
  }

  /** Putting one more piece and run in front of a separation of the rest. */
  lemma InterleaveCons(s: string, k: nat, e: nat, ss: seq<string>, ws: seq<string>)
    requires 0 < k < e <= |s| && AllSpace(s[k..e])
    requires Separates(ss, ws, s[e..])
    requires ss[0] == [] || !IsSpace(ss[0][0])
    ensures Separates([s[..k]] + ss, [s[k..e]] + ws, s)
  {
    var ss2 := [s[..k]] + ss;
    var ws2 := [s[k..e]] + ws;
    assert ss2[1..] == ss && ws2[1..] == ws;
    assert forall i :: 0 < i < |ss2| ==> ss2[i] == ss[i - 1];
    assert Interleave(ss2, ws2) == s[..k] + s[k..e] + s[e..];
    assert s == s[..k] + s[k..e] + s[e..];
  }

  /** The split is the only one of its kind: any sentence list that, with
      whole whitespace runs put back between its sentences, gives `s` is
      `Sentences(s)`. */
  lemma {:induction false} SentencesUnique(ss: seq<string>, ws: seq<string>, s: string)
    requires Separates(ss, ws, s) && SentenceList(ss)
    ensures Sentences(s) == ss
    decreases |ws|
  {
    if ws == [] {
      assert s == ss[0];
      forall p: nat | p <= |s|
        ensures SentenceBreakAt(s, p).None?
      {
        if 0 < p < |s| {
          assert !(s[p - 1] == '.' && IsSpace(s[p]));
        }
      }
      LeftmostNone(s, 0, SentenceBreakAt);
    } else {
      var rest := Interleave(ss[1..], ws[1..]);
      var k, e := SeparatedFirstBreak(ss, ws, s);
      SeparatesTail(ss, ws, s);
      SentencesUnique(ss[1..], ws[1..], rest);
      SentencesCons(s, k, e);
    }
  }

  /** The first run of a separation sits at the first break of `s`, and the
      split step lands where the rest of the separation starts. */
  lemma SeparatedFirstBreak(ss: seq<string>, ws: seq<string>, s: string) returns (k: nat, e: nat)
    requires Separates(ss, ws, s) && SentenceList(ss) && ws != []
    ensures Leftmost(s, 0, SentenceBreakAt) == Some((k, e))
    ensures s[..k] == ss[0] && s[e..] == Interleave(ss[1..], ws[1..])
  {
    var h := ss[0];
    var w := ws[0];
    var rest := Interleave(ss[1..], ws[1..]);
    assert s == h + w + rest;
    k := |h|;
    e := k + |w|;
    assert s[k..e] == w;
    assert s[e..] == rest;
    assert s[k] == w[0];
    assert s[k - 1] == h[k - 1];
    forall p: nat | p < k
      ensures SentenceBreakAt(s, p).None?
    {
      if 0 < p {
        assert h[p - 1] == s[p - 1] && h[p] == s[p];
        assert !(h[p - 1] == '.' && IsSpace(h[p]));
      }
    }
    RunEndsAtPiece(ss, ws);
    assert e == |s| || !IsSpace(s[e]) by {
      if e < |s| {
        assert s[e] == rest[0];
      }
    }
    SkipSpacesAt(s, k, e);
    LeftmostIs(s, 0, SentenceBreakAt, k, e);
    assert s[..k] == h;
  }

  /** What follows the first run is empty or starts with a non-space. */
  lemma RunEndsAtPiece(ss: seq<string>, ws: seq<string>)
    requires |ws| + 1 == |ss| && ws != [] && SentenceList(ss)
    requires forall i :: 0 < i < |ss| ==> ss[i] == [] || !IsSpace(ss[i][0])
    ensures var rest := Interleave(ss[1..], ws[1..]); rest == [] || !IsSpace(rest[0])
  {
    var rest := Interleave(ss[1..], ws[1..]);
    if ss[1] == [] {
      assert |ss| == 2;
    } else {
      assert ss[1..][0] == ss[1];
      if ws[1..] != [] {
        assert rest == ss[1] + ws[1] + Interleave(ss[2..], ws[2..]);
      }
      assert rest[0] == ss[1][0];
    }
  }

  /** Dropping the first sentence and run of a separation separates the
      rest. */
  lemma SeparatesTail(ss: seq<string>, ws: seq<string>, s: string)
    requires Separates(ss, ws, s) && SentenceList(ss) && ws != []
    ensures Separates(ss[1..], ws[1..], Interleave(ss[1..], ws[1..]))
    ensures SentenceList(ss[1..])
  {
    assert forall i :: 0 <= i < |ss| - 1 ==> ss[1..][i] == ss[i + 1];
    assert forall i :: 0 <= i < |ws| - 1 ==> ws[1..][i] == ws[i + 1];
  }

  /** There is a sentence break: a period followed by whitespace. */
  ghost predicate HasSentenceBreak(s: string) {
    exists p: nat :: 0 < p < |s| && s[p - 1] == '.' && IsSpace(s[p])
  }

  /** No sentence holds a sentence break and every sentence but the last
      ends with a period. */
  ghost predicate SentenceList(ss: seq<string>) {
    && (forall i :: 0 <= i < |ss| ==> !HasSentenceBreak(ss[i]))
    && (forall i :: 0 <= i < |ss| - 1 ==> |ss[i]| > 0 && ss[i][|ss[i]| - 1] == '.')
  }

  /** The sentences of `s` form such a list, and there are several of them
      exactly when `s` has a break. */
  lemma {:induction false} SentencesShape(s: string)
    ensures |Sentences(s)| > 1 <==> HasSentenceBreak(s)
    ensures SentenceList(Sentences(s))
    decreases |s|
  {
    match Leftmost(s, 0, SentenceBreakAt)
    case None =>
      NoSentenceBreak(s);
    case Some((k, e)) =>
      var rest := s[e..];
      SentencesShape(rest);
      FirstSentence(s, k, e);
      SentenceListCons(s[..k], Sentences(rest));
  }

  /** Without a leftmost break, there is no break at all. */
  lemma NoSentenceBreak(s: string)
    requires Leftmost(s, 0, SentenceBreakAt).None?
    ensures !HasSentenceBreak(s)
  {
    forall p: nat | 0 < p < |s| && s[p - 1] == '.'
      ensures !IsSpace(s[p])
    {
      assert SentenceBreakAt(s, p).None?;
    }
  }

  /** The text before the leftmost break is a sentence ending in a period
      and holding no break. */
  lemma FirstSentence(s: string, k: nat, e: nat)
    requires Leftmost(s, 0, SentenceBreakAt) == Some((k, e))
    ensures 0 < k < e <= |s|
    ensures HasSentenceBreak(s)
    ensures !HasSentenceBreak(s[..k]) && |s[..k]| > 0 && s[..k][k - 1] == '.'
  {
    assert 0 < k < |s| && s[k - 1] == '.' && IsSpace(s[k]);
    forall p: nat | 0 < p < k && s[..k][p - 1] == '.'
      ensures !IsSpace(s[..k][p])
    {
      assert SentenceBreakAt(s, p).None?;
    }
  }

  /** A first sentence ending in a period, then a sentence list, is a
      sentence list. */
  lemma SentenceListCons(h: string, t: seq<string>)
    requires !HasSentenceBreak(h) && |h| > 0 && h[|h| - 1] == '.'
    requires SentenceList(t)
    ensures SentenceList([h] + t)
  {
    var ss := [h] + t;
    forall i | 0 < i < |ss|
      ensures ss[i] == t[i - 1]
    {
    }
  }

  /** Fallback 3: an exercise with an empty commentary and no alternative
      marker in its question is split into its first sentence (the
      question) and the remaining sentences joined by single spaces (the
      commentary). */
  function SentenceRule(f: Parts): (r: Parts)
    ensures r.answer == f.answer
    ensures f.commentary != "" ==> r == f
    ensures IsStripped(f.question) && IsStripped(f.commentary) ==> IsStripped(r.question) && IsStripped(r.commentary)
  {
    if f.commentary == "" && LastAlt(f.question, |f.question|).None? then
      var ss := Sentences(f.question);
      if |ss| > 1 then f.(question := Strip(ss[0]), commentary := Strip(Join(ss[1..], " "))) else f
    else f
  }

  /** When fallback 3 changes the question, the question had an empty
      commentary, no alternative marker and a sentence break; the new
      question is the stripped text up to the first break, which ends with
      a period. Any split of the question into sentences with whole
      whitespace runs between them gives the same new parts: the first
      sentence stripped, the others joined by single spaces and stripped. */
  lemma SentenceRuleSplits(f: Parts)
    requires SentenceRule(f).question != f.question
    ensures f.commentary == "" && !HasAlt(f.question) && HasSentenceBreak(f.question)
    ensures var ss := Sentences(f.question);
      && SentenceRule(f) == f.(question := Strip(ss[0]), commentary := Strip(Join(ss[1..], " ")))
      && !HasSentenceBreak(ss[0]) && |ss[0]| > 0 && ss[0][|ss[0]| - 1] == '.'
    ensures exists k: nat :: FirstBreak(f.question, k) && Sentences(f.question)[0] == f.question[..k]
    ensures forall ss, ws :: Separates(ss, ws, f.question) && SentenceList(ss) ==>
      SentenceRule(f) == f.(question := Strip(ss[0]), commentary := Strip(Join(ss[1..], " ")))
  {
    LastAltFindsAny(f.question);
    SentencesShape(f.question);
    var k, e := FirstBreakOf(f.question);
    FirstSentenceIs(f.question, k);
    forall ss, ws | Separates(ss, ws, f.question) && SentenceList(ss)
      ensures Sentences(f.question) == ss
    {
      SentencesUnique(ss, ws, f.question);
    }
  }

  /** A text with a break has a first one: the leftmost match. */
  lemma FirstBreakOf(s: string) returns (k: nat, e: nat)
    requires HasSentenceBreak(s)
    ensures FirstBreak(s, k)
  {
    SentencesShape(s);
    match Leftmost(s, 0, SentenceBreakAt)
    case Some((k', e')) =>
      k, e := k', e';
      forall p: nat | 0 < p < k
        ensures !(s[p - 1] == '.' && IsSpace(s[p]))
      {
        assert SentenceBreakAt(s, p).None?;
      }
    case None =>
      NoSentenceBreak(s);
      assert false;
  }

  /** Fallback 3 applies exactly when the commentary is empty, the question
      has no alternative marker and it has a sentence break. */
  lemma SentenceRuleApplies(f: Parts)
    ensures SentenceRule(f) != f <==> f.commentary == "" && !HasAlt(f.question) && HasSentenceBreak(f.question)
  {
    LastAltFindsAny(f.question);
    SentencesShape(f.question);
    var ss := Sentences(f.question);
    if f.commentary == "" && !HasAlt(f.question) && HasSentenceBreak(f.question) {
      assert ss[0] != [];
      JoinPrefix(ss[1..], " ");
      assert !HasSentenceBreak(ss[0]);
      if Strip(Join(ss[1..], " ")) == "" {
        assert Strip(ss[0]) != f.question by {
          SentencesMissSomething(f.question);
        }
      }
    }
  }

  /** With a sentence break, the first sentence is not all of `s`. */
  lemma SentencesMissSomething(s: string)
    requires HasSentenceBreak(s)
    ensures Strip(Sentences(s)[0]) != s
  {
    SentencesShape(s);
    match Leftmost(s, 0, SentenceBreakAt)
    case Some((k, e)) =>
      assert Sentences(s)[0] == s[..k];
      assert |Strip(s[..k])| <= k < |s|;
    case None =>
      assert false;
  }

  // ------------------------------------------------------------------
  // The whole chunk
  // ------------------------------------------------------------------

  /** The invariant every record keeps: an answer from the allowed set, a
      non-empty commentary whenever there is an answer, and stripped
      question and commentary. */
  predicate WellFormed(f: Parts) {
    && IsAnswer(f.answer)
    && (f.answer != "" ==> f.commentary != "")
    && IsStripped(f.question)
    && IsStripped(f.commentary)
  }

  /** The fields before the fallbacks: answer and split read the cleaned
      text independently. */
  function InitialFields(clean: string): Parts {
    var b := SplitQuestion(clean);
    Parts(b.question, b.commentary, ExtractAnswer(clean))
  }

  /** The three fallbacks in their fixed order. */
  function ApplyFallbacks(clean: string, f: Parts): (r: Parts)
    ensures IsAnswer(f.answer) && IsStripped(f.question) && IsStripped(f.commentary) ==> WellFormed(r)
    ensures f.answer != "" ==> r.answer == f.answer
  {
    var f1 := QuestaoRule(clean, f);
    var f2 := EchoAnswerRule(f1);
    var f3 := SentenceRule(f2);
    assert IsAnswer(f.answer) ==> IsAnswer(f1.answer);
    assert IsAnswer(f1.answer) && f2.answer != "" ==> f2.commentary != "" by {
      if IsAnswer(f1.answer) && f2.answer != "" {
        assert Strip(f2.commentary) != "";
      }
    }
    f3
  }

  /** Meta, then cleaned content, then fields: one chunk's extraction. The
      result always keeps the record invariant. */
  function ExtractFields(content: string): (r: (string, Parts))
    ensures WellFormed(r.1)
    ensures ')' !in r.0 && '\n' !in r.0
    ensures r.0 == ExtractMeta(content)
  {
    var meta := ExtractMeta(content);
    var clean := CleanContent(content, meta);
    (meta, ApplyFallbacks(clean, InitialFields(clean)))
  }

  /** Answer precedence: a `Gabarito: Correto/Errado` marker decides the
      answer whatever else the text holds; a `Gabarito letra X` marker
      decides it only without one; `Questão correta/errada` is consulted
      only when neither marker occurs. */
  lemma AnswerPrecedence(content: string)
    ensures var clean := CleanContent(content, ExtractMeta(content));
      var a := ExtractFields(content).1.answer;
      && (HasVerdict(clean) ==> a == ExtractAnswer(clean) && (a == "Correto" || a == "Errado"))
      && (!HasVerdict(clean) && HasLetter(clean) ==> a == ExtractAnswer(clean) && |a| == 1)
      && (!HasVerdict(clean) && !HasLetter(clean) ==>
            a == (match Leftmost(clean, 0, QuestaoAt) case Some((_, v)) => v case None => ""))
  {
  }
}
