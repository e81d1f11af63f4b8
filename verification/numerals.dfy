/** Chunking for `parse_exercises`: `re.split(r"\n\s*(\d+)\.\s*", text)`.
    The split keeps the digits of every marker and the text between one
    marker and the next; the text before the first marker is discarded. */
module Numerals {
  import opened Wrappers
  import opened Strings

  /** One match of the numeral marker: the line feed at `start`, the digits
      at `[digitsLo, digitsHi)`, the period at `digitsHi`; the match ends at
      `end`. */
  datatype Marker = Marker(start: nat, digitsLo: nat, digitsHi: nat, end: nat)

  /** `m` is the match of `\n\s*(\d+)\.\s*` that Python's backtracking
      engine reports at `m.start`: both `\s*` runs and the digit run are as
      long as they can be. The first two are forced (a digit and a period
      follow them); the last one is greedy. */
  predicate IsMarkerMatch(s: string, m: Marker) {
    && m.start < m.digitsLo < m.digitsHi < m.end <= |s|
    && s[m.start] == '\n'
    && (forall k :: m.start < k < m.digitsLo ==> IsSpace(s[k]))
    && (forall k :: m.digitsLo <= k < m.digitsHi ==> IsDigit(s[k]))
    && s[m.digitsHi] == '.'
    && (forall k :: m.digitsHi < k < m.end ==> IsSpace(s[k]))
    && (m.end == |s| || !IsSpace(s[m.end]))
  }

  /** The marker scanner at one position: the marker match at `p`, if any. */
  function MatchMarker(s: string, p: nat): (r: Option<Marker>)
    ensures r.Some? ==> r.value.start == p && IsMarkerMatch(s, r.value)
  {
    if p < |s| && s[p] == '\n' then
      var lo := SkipSpaces(s, p + 1);
      var hi := SkipDigits(s, lo);
      if lo < hi && hi < |s| && s[hi] == '.' then
        Some(Marker(p, lo, hi, SkipSpaces(s, hi + 1)))
      else None
    else None
  }

  /** The scanner misses no match: wherever a marker match starts, the
      scanner reports exactly that match (so a match at a position is
      unique). With the postcondition of `MatchMarker`, the scanner succeeds
      exactly at the starts of marker matches. */
  lemma MatchMarkerComplete(s: string, m: Marker)
    requires IsMarkerMatch(s, m)
    ensures MatchMarker(s, m.start) == Some(m)
  {
    MarkerIsScanned(s, m);
  }

  /** The scanner's runs are the runs of any marker match. */
  lemma MarkerIsScanned(s: string, m: Marker)
    requires IsMarkerMatch(s, m)
    ensures SkipSpaces(s, m.start + 1) == m.digitsLo
    ensures SkipDigits(s, m.digitsLo) == m.digitsHi
    ensures SkipSpaces(s, m.digitsHi + 1) == m.end
  {
    SkipSpacesAt(s, m.start + 1, m.digitsLo);
    SkipDigitsAt(s, m.digitsLo, m.digitsHi);
    SkipSpacesAt(s, m.digitsHi + 1, m.end);
  }

  /** `q` lies outside every marker of `ms` (a marker's own start is inside). */
  predicate InGap(ms: seq<Marker>, q: nat) {
    forall i :: 0 <= i < |ms| ==> q < ms[i].start || ms[i].end <= q
  }

  /** The markers `re.split` finds from `from` on: the leftmost match, then
      the scan resumes where that match ends. The markers are in order and
      do not overlap, and no marker match starts at a position outside them. */
  function FindMarkers(s: string, from: nat): (ms: seq<Marker>)
    requires from <= |s|
    ensures forall i :: 0 <= i < |ms| ==> IsMarkerMatch(s, ms[i]) && from <= ms[i].start
    ensures forall i :: 0 <= i < |ms| - 1 ==> ms[i].end <= ms[i + 1].start
    ensures forall q :: from <= q <= |s| && InGap(ms, q) ==> MatchMarker(s, q).None?
    decreases |s| - from
  {
    match Leftmost(s, from, MatchMarker)
    case None => []
    case Some((k, m)) =>
      var rest := FindMarkers(s, m.end);
      GapsAfterMatch(s, from, m, rest);
      ConsMarkers(s, from, m, rest);
      [m] + rest
  }

  /** The scan step of `FindMarkers`: no match starts between `from` and the
      leftmost match `m`, none inside `m`, and none in the gaps of `rest`,
      so none in the gaps of `[m] + rest`. */
  lemma GapsAfterMatch(s: string, from: nat, m: Marker, rest: seq<Marker>)
    requires from <= m.start < m.end <= |s|
    requires forall k :: from <= k < m.start ==> MatchMarker(s, k).None?
    requires forall q :: m.end <= q <= |s| && InGap(rest, q) ==> MatchMarker(s, q).None?
    ensures forall q :: from <= q <= |s| && InGap([m] + rest, q) ==> MatchMarker(s, q).None?
  {
    var ms := [m] + rest;
    forall q | from <= q <= |s| && InGap(ms, q)
      ensures MatchMarker(s, q).None?
    {
      assert q < m.start || m.end <= q by { assert ms[0] == m; }
      if m.end <= q {
        assert InGap(rest, q) by {
          forall i | 0 <= i < |rest|
            ensures q < rest[i].start || rest[i].end <= q
          {
            assert rest[i] == ms[i + 1];
          }
        }
      }
    }
  }

  lemma ConsMarkers(s: string, from: nat, m: Marker, rest: seq<Marker>)
    requires from <= m.start && IsMarkerMatch(s, m)
    requires forall i :: 0 <= i < |rest| ==> IsMarkerMatch(s, rest[i]) && m.end <= rest[i].start
    requires forall i :: 0 <= i < |rest| - 1 ==> rest[i].end <= rest[i + 1].start
    ensures forall i :: 0 <= i < |[m] + rest| ==> IsMarkerMatch(s, ([m] + rest)[i]) && from <= ([m] + rest)[i].start
    ensures forall i :: 0 <= i < |[m] + rest| - 1 ==> ([m] + rest)[i].end <= ([m] + rest)[i + 1].start
  {
    ConsMatches(s, from, m, rest);
    ConsOrdered(m, rest);
  }

  lemma ConsMatches(s: string, from: nat, m: Marker, rest: seq<Marker>)
    requires from <= m.start && IsMarkerMatch(s, m)
    requires forall i :: 0 <= i < |rest| ==> IsMarkerMatch(s, rest[i]) && m.end <= rest[i].start
    ensures forall i :: 0 <= i < |[m] + rest| ==> IsMarkerMatch(s, ([m] + rest)[i]) && from <= ([m] + rest)[i].start
  {
    var ms := [m] + rest;
    forall i | 0 <= i < |ms|
      ensures IsMarkerMatch(s, ms[i]) && from <= ms[i].start
    {
      if i > 0 {
        assert ms[i] == rest[i - 1];
        assert m.start < m.end <= rest[i - 1].start;
      }
    }
  }

  lemma ConsOrdered(m: Marker, rest: seq<Marker>)
    requires forall i :: 0 <= i < |rest| ==> m.end <= rest[i].start
    requires forall i :: 0 <= i < |rest| - 1 ==> rest[i].end <= rest[i + 1].start
    ensures forall i :: 0 <= i < |[m] + rest| - 1 ==> ([m] + rest)[i].end <= ([m] + rest)[i + 1].start
  {
    var ms := [m] + rest;
    forall i | 0 <= i < |ms| - 1
      ensures ms[i].end <= ms[i + 1].start
    {
      assert ms[i + 1] == rest[i];
      if i > 0 {
        assert ms[i] == rest[i - 1];
      }
    }
  }

  /** One exercise chunk: the value of the marker's digits and the text up
      to the next marker (or the end). */
  datatype Chunk = Chunk(number: nat, content: string)

  /** Where the text of chunk `i` ends: at the next marker, or the end. */
  function ChunkEnd(s: string, ms: seq<Marker>, i: nat): nat
    requires i < |ms|
  {
    if i + 1 < |ms| then ms[i + 1].start else |s|
  }

  /** The chunks of `s`, one per marker, in order: `parts[1::2]` and
      `parts[2::2]` of the Python split, read with `int`. */
  function Chunks(s: string): (cs: seq<Chunk>)
    ensures |cs| == |FindMarkers(s, 0)|
  {
    var ms := FindMarkers(s, 0);
    FoundSpans(s);
    seq(|ms|, i requires 0 <= i < |ms| =>
      var m := ms[i];
      ChunkEndWithin(s, ms, i);
      Chunk(DecimalValue(s[m.digitsLo..m.digitsHi]), s[m.end..ChunkEnd(s, ms, i)]))
  }

  /** A chunk's text lies between the end of its marker and the end of
      `s`. */
  lemma ChunkEndWithin(s: string, ms: seq<Marker>, i: nat)
    requires Spans(s, ms) && i < |ms|
    ensures ms[i].end <= ChunkEnd(s, ms, i) <= |s|
  {
    if i + 1 < |ms| {
      assert ms[i].end <= ms[i + 1].start < ms[i + 1].end;
    }
  }

  /** The digits of `m` are the decimal numeral of `n`, after any leading
      zeros: what `str(n)` writes, padded, which `int` reads back as `n`. */
  ghost predicate NumberedBy(s: string, m: Marker, n: nat)
    requires m.digitsLo <= m.digitsHi <= |s|
  {
    exists z: nat :: s[m.digitsLo..m.digitsHi] == Zeros(z) + Decimal(n)
  }

  /** Chunk `i` is numbered by the digits of marker `i` (`int(parts[i])`). */
  lemma ChunkNumbers(s: string)
    ensures var cs := Chunks(s); var ms := FindMarkers(s, 0);
      forall i :: 0 <= i < |cs| ==> NumberedBy(s, ms[i], cs[i].number)
  {
    var ms := FindMarkers(s, 0);
    forall i | 0 <= i < |ms|
      ensures NumberedBy(s, ms[i], Chunks(s)[i].number)
    {
      ChunkNumber(s, ms, i);
    }
  }

  lemma ChunkNumber(s: string, ms: seq<Marker>, i: nat)
    requires ms == FindMarkers(s, 0) && i < |ms|
    ensures NumberedBy(s, ms[i], Chunks(s)[i].number)
  {
    var ds := s[ms[i].digitsLo..ms[i].digitsHi];
    DigitsOfMatch(s, ms[i]);
    var z := DigitsAreNumeral(ds);
    assert Chunks(s)[i].number == DecimalValue(ds);
  }

  lemma DigitsOfMatch(s: string, m: Marker)
    requires IsMarkerMatch(s, m)
    ensures AllDigits(s[m.digitsLo..m.digitsHi])
  {
    forall k | 0 <= k < m.digitsHi - m.digitsLo
      ensures IsDigit(s[m.digitsLo..m.digitsHi][k])
    {
      assert s[m.digitsLo..m.digitsHi][k] == s[m.digitsLo + k];
    }
  }

  /** The text before the first marker (`parts[0]`), which yields no chunk. */
  function Preamble(s: string): string {
    var ms := FindMarkers(s, 0);
    if ms == [] then s else s[..ms[0].start]
  }

  /** The spans of `ms` lie in `s`, in order and without overlap. */
  predicate Spans(s: string, ms: seq<Marker>) {
    && (forall j :: 0 <= j < |ms| ==> ms[j].start < ms[j].end <= |s|)
    && (forall j :: 0 <= j < |ms| - 1 ==> ms[j].end <= ms[j + 1].start)
  }

  /** The markers the scan finds have such spans. */
  lemma FoundSpans(s: string)
    ensures Spans(s, FindMarkers(s, 0))
  {
    var ms := FindMarkers(s, 0);
    forall j | 0 <= j < |ms|
      ensures ms[j].start < ms[j].end <= |s|
    {
      assert IsMarkerMatch(s, ms[j]);
    }
  }

  /** Each chunk's content is the text from the end of its marker up to the
      start of the next marker, or to the end of `s` after the last one. */
  ghost predicate ContentsBetween(s: string, ms: seq<Marker>, cs: seq<Chunk>) {
    && Spans(s, ms)
    && |cs| == |ms|
    && forall i :: 0 <= i < |ms| ==>
         ms[i].end <= ChunkEnd(s, ms, i) <= |s| && cs[i].content == s[ms[i].end..ChunkEnd(s, ms, i)]
  }

  /** The chunks of `s` hold exactly the text between consecutive markers. */
  lemma ChunksBetween(s: string)
    ensures ContentsBetween(s, FindMarkers(s, 0), Chunks(s))
  {
    var ms := FindMarkers(s, 0);
    FoundSpans(s);
    forall i | 0 <= i < |ms|
      ensures ms[i].end <= ChunkEnd(s, ms, i) <= |s|
    {
      if i + 1 < |ms| {
        assert ms[i].end <= ms[i + 1].start < ms[i + 1].end;
      }
    }
  }

  /** Marker `i`'s own text followed by chunk `i`'s content, then the same
      for every later marker. */
  function Glue(s: string, ms: seq<Marker>, cs: seq<Chunk>, i: nat): string
    requires i <= |ms| == |cs|
    requires forall j :: 0 <= j < |ms| ==> ms[j].start <= ms[j].end <= |s|
    decreases |ms| - i
  {
    if i == |ms| then ""
    else s[ms[i].start..ms[i].end] + cs[i].content + Glue(s, ms, cs, i + 1)
  }

  lemma {:induction false} GlueIsSuffix(s: string, ms: seq<Marker>, cs: seq<Chunk>, i: nat)
    requires i < |ms|
    requires ContentsBetween(s, ms, cs)
    ensures Glue(s, ms, cs, i) == s[ms[i].start..]
    decreases |ms| - i
  {
    var a, b, c := ms[i].start, ms[i].end, ChunkEnd(s, ms, i);
    ContentAt(s, ms, cs, i);
    assert Glue(s, ms, cs, i) == s[a..b] + s[b..c] + Glue(s, ms, cs, i + 1);
    if i + 1 < |ms| {
      GlueIsSuffix(s, ms, cs, i + 1);
    }
    assert s[a..] == s[a..b] + s[b..c] + s[c..];
  }

  /** The facts `ContentsBetween` gives about one chunk. */
  lemma ContentAt(s: string, ms: seq<Marker>, cs: seq<Chunk>, i: nat)
    requires ContentsBetween(s, ms, cs) && i < |ms|
    ensures ms[i].start < ms[i].end <= ChunkEnd(s, ms, i) <= |s|
    ensures cs[i].content == s[ms[i].end..ChunkEnd(s, ms, i)]
    ensures i + 1 < |ms| ==> ChunkEnd(s, ms, i) == ms[i + 1].start
    ensures i + 1 == |ms| ==> ChunkEnd(s, ms, i) == |s|
  {
  }

  /** The split loses nothing but the markers themselves: the preamble,
      then each marker's own text followed by its chunk's content, rebuild
      `s`. */
  lemma ChunksRebuildText(s: string)
    ensures Spans(s, FindMarkers(s, 0))
    ensures Preamble(s) + Glue(s, FindMarkers(s, 0), Chunks(s), 0) == s
  {
    ChunksBetween(s);
    GlueRebuilds(s, FindMarkers(s, 0), Chunks(s));
  }

  /** The text before the first span, then the glued spans, give `s`. */
  lemma GlueRebuilds(s: string, ms: seq<Marker>, cs: seq<Chunk>)
    requires ContentsBetween(s, ms, cs)
    ensures (if ms == [] then s else s[..ms[0].start]) + Glue(s, ms, cs, 0) == s
  {
    if ms != [] {
      var p := ms[0].start;
      GlueIsSuffix(s, ms, cs, 0);
      assert s == s[..p] + s[p..];
    }
  }

  /** `c` is the longest text starting at `from` in which no marker match
      starts: it is the text of `s` there, no match starts inside it, and
      it stops at the end of `s` or where a match starts. */
  predicate MarkerFreeRun(s: string, from: nat, c: string) {
    && from + |c| <= |s|
    && s[from..from + |c|] == c
    && (forall q :: from <= q < from + |c| ==> MatchMarker(s, q).None?)
    && (from + |c| == |s| || MatchMarker(s, from + |c|).Some?)
  }

  /** From a given position there is one such run. */
  lemma MarkerFreeRunUnique(s: string, from: nat, c: string, d: string)
    requires MarkerFreeRun(s, from, c) && MarkerFreeRun(s, from, d)
    ensures c == d
  {
    RunNotLonger(s, from, c, d);
    RunNotLonger(s, from, d, c);
  }

  /** A run that stops at a match or at the end is no longer than any
      other marker-free run from the same position. */
  lemma RunNotLonger(s: string, from: nat, c: string, d: string)
    requires MarkerFreeRun(s, from, c) && MarkerFreeRun(s, from, d)
    ensures |d| <= |c|
  {
    var e := from + |c|;
    if e < |s| {
      assert MatchMarker(s, e).Some?;
      assert !(e < from + |d|);
    }
  }

  /** Each chunk's content is the longest marker-free text after its
      marker, which is what `re.split` leaves between two separators. */
  lemma ChunkContents(s: string)
    ensures var cs := Chunks(s); var ms := FindMarkers(s, 0);
      forall i :: 0 <= i < |cs| ==> MarkerFreeRun(s, ms[i].end, cs[i].content)
  {
    var ms := FindMarkers(s, 0);
    var cs := Chunks(s);
    ChunksBetween(s);
    forall i | 0 <= i < |cs|
      ensures MarkerFreeRun(s, ms[i].end, cs[i].content)
    {
      ChunkHoldsNoMarker(s, ms, cs, i);
      if i + 1 < |ms| {
        NextMarkerMatches(s, ms, i);
      }
      ChunkIsRun(s, ms, cs, i);
    }
  }

  /** A chunk's content is a marker-free run when it holds no match and
      the next marker, if any, starts a match. */
  lemma ChunkIsRun(s: string, ms: seq<Marker>, cs: seq<Chunk>, i: nat)
    requires ContentsBetween(s, ms, cs) && i < |cs|
    requires HoldsNoMarker(s, ms[i], cs[i])
    requires i + 1 < |ms| ==> MatchMarker(s, ChunkEnd(s, ms, i)).Some?
    ensures MarkerFreeRun(s, ms[i].end, cs[i].content)
  {
    ContentAt(s, ms, cs, i);
  }

  /** The next marker of the scan starts a match. */
  lemma NextMarkerMatches(s: string, ms: seq<Marker>, i: nat)
    requires ms == FindMarkers(s, 0) && i + 1 < |ms|
    ensures MatchMarker(s, ChunkEnd(s, ms, i)).Some?
  {
    var m := ms[i + 1];
    assert IsMarkerMatch(s, m);
    MatchMarkerComplete(s, m);
  }

  /** No marker match starts inside the content `c` that follows marker
      `m`. */
  predicate HoldsNoMarker(s: string, m: Marker, c: Chunk) {
    forall q :: m.end <= q < m.end + |c.content| ==> MatchMarker(s, q).None?
  }

  /** No chunk's content holds the start of a marker match, so every marker
      in `s` opens exactly one chunk. */
  lemma ChunkTextsHoldNoMarker(s: string)
    ensures var cs := Chunks(s); var ms := FindMarkers(s, 0);
      forall i :: 0 <= i < |cs| ==> HoldsNoMarker(s, ms[i], cs[i])
  {
    var ms := FindMarkers(s, 0);
    var cs := Chunks(s);
    ChunksBetween(s);
    forall i | 0 <= i < |cs|
      ensures HoldsNoMarker(s, ms[i], cs[i])
    {
      ChunkHoldsNoMarker(s, ms, cs, i);
    }
  }

  lemma ChunkHoldsNoMarker(s: string, ms: seq<Marker>, cs: seq<Chunk>, i: nat)
    requires ms == FindMarkers(s, 0) && ContentsBetween(s, ms, cs) && i < |cs|
    ensures HoldsNoMarker(s, ms[i], cs[i])
  {
    forall q | ms[i].end <= q < ms[i].end + |cs[i].content|
      ensures MatchMarker(s, q).None?
    {
      ChunkTextInGap(s, ms, i, q);
    }
  }

  /** A position in the text after span `i` and before the next one lies
      outside every span. */
  lemma ChunkTextInGap(s: string, ms: seq<Marker>, i: nat, q: nat)
    requires Spans(s, ms)
    requires i < |ms| && ms[i].end <= q < ChunkEnd(s, ms, i)
    ensures InGap(ms, q)
  {
    MarkersSorted(s, ms);
    forall j | 0 <= j < |ms|
      ensures q < ms[j].start || ms[j].end <= q
    {
      if j > i {
        assert ms[i + 1].start <= ms[j].start;
      }
    }
  }

  /** The preamble holds the start of no marker match: it yields no chunk. */
  lemma PreambleHoldsNoMarker(s: string)
    ensures forall q :: 0 <= q < |Preamble(s)| ==> MatchMarker(s, q).None?
  {
    var ms := FindMarkers(s, 0);
    FoundSpans(s);
    forall q | 0 <= q < |Preamble(s)|
      ensures InGap(ms, q)
    {
      PreambleInGap(s, ms, q);
    }
  }

  /** A position before the first span lies outside every span. */
  lemma PreambleInGap(s: string, ms: seq<Marker>, q: nat)
    requires Spans(s, ms)
    requires ms != [] ==> q < ms[0].start
    ensures InGap(ms, q)
  {
    MarkersSorted(s, ms);
  }

  /** Markers found by the scan are ordered by position. */
  lemma MarkersSorted(s: string, ms: seq<Marker>)
    requires Spans(s, ms)
    ensures forall a, b :: 0 <= a < b < |ms| ==> ms[a].end <= ms[b].start
  {
    forall a, b | 0 <= a < b < |ms|
      ensures ms[a].end <= ms[b].start
    {
      MarkersSortedFrom(s, ms, a, b);
    }
  }

  lemma {:induction false} MarkersSortedFrom(s: string, ms: seq<Marker>, a: nat, b: nat)
    requires Spans(s, ms)
    requires a < b < |ms|
    ensures ms[a].end <= ms[b].start
    decreases b - a
  {
    if a + 1 < b {
      MarkersSortedFrom(s, ms, a + 1, b);
    }
  }
}
