/** The pure part of the Anki exporter: `format_html`, the empty-card
    filter and the note fields built for each kept exercise. */
module AnkiExport {
  import opened Strings
  import opened Seqs
  import opened Segmenter

  /** The separator `format_html` puts between paragraphs. */
  const LineBreak: string := "<br>"

  /** `.replace("\r\n", "\n").replace("\r", "\n")`. */
  function NormalizeNewlines(text: string): string {
    ReplaceAll(ReplaceAll(text, "\r\n", "\n"), "\r", "\n")
  }

  /** `[p.strip() for p in lines if p.strip()]`: the stripped, non-blank
      lines, in order. */
  function Paragraphs(lines: seq<string>): (r: seq<string>)
    ensures |r| <= |lines|
    ensures forall i :: 0 <= i < |r| ==> r[i] != [] && IsStripped(r[i])
    ensures r == [] <==> forall i :: 0 <= i < |lines| ==> AllSpace(lines[i])
    decreases |lines|
  {
    if lines == [] then []
    else
      var p := Strip(lines[0]);
      var rest := Paragraphs(lines[1..]);
      assert forall i :: 1 <= i < |lines| ==> lines[i] == lines[1..][i - 1];
      if p == [] then rest else [p] + rest
  }

  /** `format_html`: normalise line ends, strip, and join the stripped
      non-blank lines with `<br>`. The result is one stripped line, and it
      is empty exactly when the input is blank. */
  function FormatHtml(text: string): (r: string)
    ensures '\n' !in r && '\r' !in r
    ensures IsStripped(r)
    ensures r == [] <==> AllSpace(text)
  {
    if text == [] then ""
    else
      FormatHtmlShape(text);
      Join(HtmlParagraphs(text), LineBreak)
  }

  /** The paragraphs `FormatHtml` joins. */
  function HtmlParagraphs(text: string): seq<string> {
    Paragraphs(Split(Strip(NormalizeNewlines(text)), "\n"))
  }

  /** The comprehension's test `if p.strip()`: the line is not blank. */
  predicate NonBlank(line: string) {
    !AllSpace(line)
  }

  /** A reference definition of the comprehension in `format_html`: keep
      the non-blank lines, then strip each. */
  function StrippedLines(lines: seq<string>): seq<string> {
    Map(Filter(lines, NonBlank), Strip)
  }

  /** `Paragraphs` is the filter-then-map reference definition. */
  lemma {:induction false} ParagraphsAreStrippedLines(lines: seq<string>)
    ensures Paragraphs(lines) == StrippedLines(lines)
    decreases |lines|
  {
    if lines != [] {
      ParagraphsAreStrippedLines(lines[1..]);
      StrippedLinesCons(lines);
    }
  }

  /** The first line of `StrippedLines`: kept, stripped, unless blank. */
  lemma StrippedLinesCons(lines: seq<string>)
    requires lines != []
    ensures var p := Strip(lines[0]); var rest := StrippedLines(lines[1..]);
      StrippedLines(lines) == if p == [] then rest else [p] + rest
  {
    var kept := Filter(lines[1..], NonBlank);
    if NonBlank(lines[0]) {
      assert Strip(lines[0]) != [];
      assert Filter(lines, NonBlank) == [lines[0]] + kept;
      MapCons(lines[0], kept, Strip);
    } else {
      assert Strip(lines[0]) == [];
      assert Filter(lines, NonBlank) == kept;
    }
  }

  /** Paragraphs of one more line at the end. */
  lemma ParagraphsSnoc(lines: seq<string>, p: string)
    ensures Paragraphs(lines + [p]) == Paragraphs(lines) + (if Strip(p) == [] then [] else [Strip(p)])
  {
    ParagraphsAreStrippedLines(lines + [p]);
    ParagraphsAreStrippedLines(lines);
    FilterAppend(lines, p, NonBlank);
    MapAppend(Filter(lines, NonBlank), p, Strip);
  }

  /** A whitespace character in front of a text changes none of the
      paragraphs of its lines. */
  lemma ParagraphsConsSpace(c: char, y: string)
    requires IsSpace(c)
    ensures Paragraphs(Split([c] + y, "\n")) == Paragraphs(Split(y, "\n"))
  {
    var x := [c] + y;
    assert x[1..] == y;
    if c == '\n' {
      assert OccursAt(x, "\n", 0);
      SplitAtStart(x, "\n");
      assert ([""] + Split(y, "\n"))[1..] == Split(y, "\n");
    } else {
      assert !OccursAt(x, "\n", 0);
      SplitPastStart(x, "\n");
      var t := Split(y, "\n");
      StripConsSpace(c, t[0]);
      var u := [[c] + t[0]] + t[1..];
      assert u[1..] == t[1..];
    }
  }

  /** A line feed at the end of a text changes none of the paragraphs of
      its lines. */
  lemma ParagraphsSnocLineFeed(y: string)
    ensures Paragraphs(Split(y + "\n", "\n")) == Paragraphs(Split(y, "\n"))
  {
    SplitSnocLineFeed(y);
    ParagraphsSnoc(Split(y, "\n"), "");
  }

  /** Any other whitespace character at the end of a text changes none of
      the paragraphs of its lines. */
  lemma ParagraphsSnocBlank(y: string, c: char)
    requires IsSpace(c) && c != '\n'
    ensures Paragraphs(Split(y + [c], "\n")) == Paragraphs(Split(y, "\n"))
  {
    var t := Split(y, "\n");
    var last := t[|t| - 1];
    assert Split(y + [c], "\n") == t[..|t| - 1] + [last + [c]] by {
      SplitSnocChar(y, c);
    }
    assert Strip(last + [c]) == Strip(last) by {
      StripSnocSpace(last, c);
    }
    ParagraphsReplaceLast(t, last + [c]);
  }

  /** Replacing the last line by one with the same stripped text keeps
      the paragraphs. */
  lemma ParagraphsReplaceLast(t: seq<string>, p: string)
    requires |t| >= 1 && Strip(p) == Strip(t[|t| - 1])
    ensures Paragraphs(t[..|t| - 1] + [p]) == Paragraphs(t)
  {
    InitLast(t);
    ParagraphsSameLast(t[..|t| - 1], p, t[|t| - 1]);
  }

  /** Two last lines with the same stripped text give the same
      paragraphs. */
  lemma ParagraphsSameLast(init: seq<string>, p: string, q: string)
    requires Strip(p) == Strip(q)
    ensures Paragraphs(init + [p]) == Paragraphs(init + [q])
  {
    ParagraphsSnoc(init, p);
    ParagraphsSnoc(init, q);
  }

  /** A whitespace character at the end of a text changes none of the
      paragraphs of its lines. */
  lemma ParagraphsSnocSpace(y: string, c: char)
    requires IsSpace(c)
    ensures Paragraphs(Split(y + [c], "\n")) == Paragraphs(Split(y, "\n"))
  {
    if c == '\n' {
      assert y + [c] == y + "\n";
      ParagraphsSnocLineFeed(y);
    } else {
      ParagraphsSnocBlank(y, c);
    }
  }

  /** Leading whitespace changes no paragraph. */
  lemma {:induction false} ParagraphsDropLead(a: string, y: string)
    requires AllSpace(a)
    ensures Paragraphs(Split(a + y, "\n")) == Paragraphs(Split(y, "\n"))
    decreases |a|
  {
    if a == [] {
      assert a + y == y;
    } else {
      var z := a[1..] + y;
      assert a + y == [a[0]] + z;
      ParagraphsConsSpace(a[0], z);
      ParagraphsDropLead(a[1..], y);
    }
  }

  /** Trailing whitespace changes no paragraph. */
  lemma {:induction false} ParagraphsDropTrail(y: string, b: string)
    requires AllSpace(b)
    ensures Paragraphs(Split(y + b, "\n")) == Paragraphs(Split(y, "\n"))
    decreases |b|
  {
    if b == [] {
      assert y + b == y;
    } else {
      var m := |b| - 1;
      var z := y + b[..m];
      assert y + b == z + [b[m]];
      ParagraphsSnocSpace(z, b[m]);
      ParagraphsDropTrail(y, b[..m]);
    }
  }

  /** Stripping a text first changes none of the paragraphs of its
      lines. */
  lemma ParagraphsOfStripped(n: string)
    ensures Paragraphs(Split(Strip(n), "\n")) == Paragraphs(Split(n, "\n"))
  {
    var a, b := StripParts(n);
    var r := Strip(n);
    ConcatAssoc(a, r, b);
    ParagraphsDropLead(a, r + b);
    ParagraphsDropTrail(r, b);
  }

  /** `format_html` without its outer `strip()`: the result is the
      normalised text's stripped non-blank lines joined by `<br>`. The
      outer strip only drops blank lines and the blank ends of the first
      and last line, which the comprehension drops anyway. */
  lemma FormatHtmlLines(text: string)
    ensures FormatHtml(text) == Join(StrippedLines(Split(NormalizeNewlines(text), "\n")), LineBreak)
  {
    var n := NormalizeNewlines(text);
    var lines := Split(n, "\n");
    ParagraphsAreStrippedLines(lines);
    if text == [] {
      assert Split("", "\n") == [""];
      assert ReplaceAll("", "\r\n", "\n") == "";
      assert n == "";
      assert Paragraphs(lines) == [];
    } else {
      ParagraphsOfStripped(n);
    }
  }

  /** The three facts `FormatHtml` promises, proved on its body. */
  lemma FormatHtmlShape(text: string)
    ensures var r := Join(HtmlParagraphs(text), LineBreak);
      && '\n' !in r && '\r' !in r
      && IsStripped(r)
      && (r == [] <==> AllSpace(text))
  {
    ParagraphsSingleLine(text);
    JoinStripped(HtmlParagraphs(text), LineBreak);
    ParagraphsBlank(text);
  }

  /** No paragraph holds a line feed or a carriage return, so neither does
      their join. */
  lemma ParagraphsSingleLine(text: string)
    ensures var ps := HtmlParagraphs(text);
      forall i :: 0 <= i < |ps| ==> '\n' !in ps[i] && '\r' !in ps[i]
    ensures var r := Join(HtmlParagraphs(text), LineBreak); '\n' !in r && '\r' !in r
  {
    var n := NormalizeNewlines(text);
    var t := Strip(n);
    var lines := Split(t, "\n");
    NormalizeRemovesCr(text);
    StripWithin(n, '\r');
    forall i | 0 <= i < |lines|
      ensures '\n' !in lines[i] && '\r' !in lines[i]
    {
      ContainsChar(lines[i], '\n');
      if '\r' in lines[i] {
        JoinKeepsChars(lines, "\n", i, '\r');
      }
    }
    ParagraphsAvoid(lines, '\n');
    ParagraphsAvoid(lines, '\r');
    var ps := Paragraphs(lines);
    JoinAvoidsChar(ps, LineBreak, '\n');
    JoinAvoidsChar(ps, LineBreak, '\r');
  }

  /** There are no paragraphs exactly when the text is blank. */
  lemma ParagraphsBlank(text: string)
    ensures HtmlParagraphs(text) == [] <==> AllSpace(text)
    ensures Join(HtmlParagraphs(text), LineBreak) == [] <==> AllSpace(text)
  {
    var n := NormalizeNewlines(text);
    var t := Strip(n);
    var lines := Split(t, "\n");
    NormalizeKeepsBlank(text);
    JoinAllSpace(lines, "\n");
    assert AllSpace(t) <==> t == [] by {
      if t != [] {
        assert !IsSpace(t[0]);
      }
    }
    JoinNonEmpty(HtmlParagraphs(text), LineBreak);
  }

  /** No carriage return survives normalisation. */
  lemma NormalizeRemovesCr(text: string)
    ensures '\r' !in NormalizeNewlines(text)
  {
    ReplaceRemovesChar(ReplaceAll(text, "\r\n", "\n"), '\r', "\n");
  }

  /** Normalisation turns line ends into line feeds only, so a blank text
      stays blank and a non-blank one stays non-blank. */
  lemma NormalizeKeepsBlank(text: string)
    ensures AllSpace(NormalizeNewlines(text)) <==> AllSpace(text)
  {
    ReplaceKeepsBlank(text, "\r\n", "\n");
    ReplaceKeepsBlank(ReplaceAll(text, "\r\n", "\n"), "\r", "\n");
  }

  /** Replacing a blank pattern with a blank text keeps blankness both
      ways. */
  lemma ReplaceKeepsBlank(s: string, pat: string, rep: string)
    requires pat != [] && AllSpace(pat) && AllSpace(rep)
    ensures AllSpace(ReplaceAll(s, pat, rep)) <==> AllSpace(s)
  {
    var parts := Split(s, pat);
    JoinAllSpace(parts, pat);
    JoinAllSpace(parts, rep);
  }

  /** Paragraphs keep no character their lines do not have. */
  lemma {:induction false} ParagraphsAvoid(lines: seq<string>, c: char)
    requires forall i :: 0 <= i < |lines| ==> c !in lines[i]
    ensures forall i :: 0 <= i < |Paragraphs(lines)| ==> c !in Paragraphs(lines)[i]
    decreases |lines|
  {
    if lines != [] {
      ParagraphsAvoid(lines[1..], c);
      StripWithin(lines[0], c);
      var p := Strip(lines[0]);
      var rest := Paragraphs(lines[1..]);
      if p != [] {
        assert Paragraphs(lines) == [p] + rest;
        forall i | 0 <= i < |Paragraphs(lines)|
          ensures c !in Paragraphs(lines)[i]
        {
          if i > 0 {
            assert Paragraphs(lines)[i] == rest[i - 1];
          }
        }
      }
    }
  }

  /** Joining non-empty stripped pieces gives a stripped text. */
  lemma {:induction false} JoinStripped(parts: seq<string>, sep: string)
    requires forall i :: 0 <= i < |parts| ==> parts[i] != [] && IsStripped(parts[i])
    ensures IsStripped(Join(parts, sep))
    decreases |parts|
  {
    if |parts| > 1 {
      JoinStripped(parts[1..], sep);
      var rest := Join(parts[1..], sep);
      JoinNonEmpty(parts[1..], sep);
      var j := parts[0] + sep + rest;
      assert j[0] == parts[0][0];
      assert j[|j| - 1] == rest[|rest| - 1];
    }
  }

  /** A join of non-empty pieces is empty exactly when there are none. */
  lemma JoinNonEmpty(parts: seq<string>, sep: string)
    requires forall i :: 0 <= i < |parts| ==> parts[i] != []
    ensures Join(parts, sep) == [] <==> parts == []
  {
    if parts != [] {
      JoinPrefix(parts, sep);
    }
  }

  /** The fixed points of `format_html` are exactly the stripped single
      lines. */
  lemma FormatHtmlFixpoints(x: string)
    ensures FormatHtml(x) == x <==> IsStripped(x) && '\n' !in x && '\r' !in x
  {
    if IsStripped(x) && '\n' !in x && '\r' !in x && x != [] {
      ContainsChar(x, '\r');
      assert !Contains(x, "\r\n") by {
        forall k: nat
          ensures !OccursAt(x, "\r\n", k)
        {
          if k + 2 <= |x| {
            assert x[k..k + 2][0] == x[k];
          }
        }
      }
      assert ReplaceAll(x, "\r\n", "\n") == x;
      assert NormalizeNewlines(x) == x;
      StripOfStripped(x);
      ContainsChar(x, '\n');
      var lines := Split(x, "\n");
      assert lines == [x];
      assert Paragraphs(lines) == [x];
    }
  }

  /** `format_html` is idempotent. */
  lemma FormatHtmlIdempotent(x: string)
    ensures FormatHtml(FormatHtml(x)) == FormatHtml(x)
  {
    FormatHtmlFixpoints(FormatHtml(x));
  }

  // ------------------------------------------------------------------
  // The export loop
  // ------------------------------------------------------------------

  /** The fields of one Anki note: the four formatted fields, the stripped
      id, the number as text, and the text the note's stable id is hashed
      from. */
  datatype Note = Note(
    question: string,
    commentary: string,
    answer: string,
    meta: string,
    id: string,
    number: string,
    guidKey: string)

  /** `str(item.get("number") or "")`: the number zero is falsy and gives
      an empty field. */
  function NumberField(n: nat): (r: string)
    ensures n == 0 <==> r == []
    ensures r != [] ==> AllDigits(r) && DecimalValue(r) == n
    ensures |r| > 1 ==> r[0] != '0'
  {
    if n == 0 then "" else Decimal(n)
  }

  /** The skip test: a card needs a non-blank question and commentary. */
  predicate Exportable(e: Exercise) {
    Strip(e.question) != [] && Strip(e.commentary) != []
  }

  /** The note for a kept item. */
  function ToNote(e: Exercise): (n: Note)
    ensures Exportable(e) <==> n.question != [] && n.commentary != []
    ensures '\n' !in n.question && '\n' !in n.commentary && '\n' !in n.answer && '\n' !in n.meta
  {
    FormatHtmlNonBlank(Strip(e.question));
    FormatHtmlNonBlank(Strip(e.commentary));
    Note(
      FormatHtml(Strip(e.question)),
      FormatHtml(Strip(e.commentary)),
      FormatHtml(Strip(e.answer)),
      FormatHtml(Strip(e.meta)),
      Strip(e.id),
      NumberField(e.number),
      Strip(e.question) + Strip(e.commentary))
  }
  /** Each note field comes from its own item field, in the order the
      note model lists them: question, commentary, answer, meta, id and
      number, each text field being the stripped item text's non-blank
      lines, stripped and joined by `<br>`. The stable id is hashed from
      the stripped question followed by the stripped commentary. */
  lemma ToNoteFields(e: Exercise)
    ensures var n := ToNote(e);
      && n.question == Join(StrippedLines(Split(NormalizeNewlines(Strip(e.question)), "\n")), LineBreak)
      && n.commentary == Join(StrippedLines(Split(NormalizeNewlines(Strip(e.commentary)), "\n")), LineBreak)
      && n.answer == Join(StrippedLines(Split(NormalizeNewlines(Strip(e.answer)), "\n")), LineBreak)
      && n.meta == Join(StrippedLines(Split(NormalizeNewlines(Strip(e.meta)), "\n")), LineBreak)
      && n.id == Strip(e.id)
      && (n.number == [] <==> e.number == 0)
      && (n.number != [] ==> n.number == Decimal(e.number))
      && n.guidKey == Strip(e.question) + Strip(e.commentary)
  {
    FormatHtmlLines(Strip(e.question));
    FormatHtmlLines(Strip(e.commentary));
    FormatHtmlLines(Strip(e.answer));
    FormatHtmlLines(Strip(e.meta));
  }


  /** A non-empty stripped text is not blank, so it formats to a non-empty
      field. */
  lemma FormatHtmlNonBlank(s: string)
    requires IsStripped(s)
    ensures FormatHtml(s) != [] <==> s != []
  {
    if s != [] {
      assert !IsSpace(s[0]);
    }
  }

  /** The notes of the kept items, in order. */
  function NotesOf(kept: seq<Exercise>): (ns: seq<Note>)
    ensures |ns| == |kept|
    ensures forall i :: 0 <= i < |kept| ==> ns[i] == ToNote(kept[i])
  {
    Map(kept, ToNote)
  }

  /** The export loop: skip items with a blank question or commentary, add
      a note for each other item in order, and count them. Every note has
      a non-empty question and commentary. */
  method ExportDeck(items: seq<Exercise>) returns (notes: seq<Note>, notesAdded: nat)
    ensures notes == NotesOf(Filter(items, Exportable))
    ensures notesAdded == |notes|
    ensures forall i :: 0 <= i < |notes| ==> notes[i].question != [] && notes[i].commentary != []
  {
    notes := [];
    notesAdded := 0;
    var i := 0;
    while i < |items|
      invariant 0 <= i <= |items|
      invariant notes == NotesOf(Filter(items[..i], Exportable))
      invariant notesAdded == |notes|
    {
      var item := items[i];
      assert items[..i + 1] == items[..i] + [item];
      FilterAppend(items[..i], item, Exportable);
      if Exportable(item) {
        MapAppend(Filter(items[..i], Exportable), item, ToNote);
        notes := notes + [ToNote(item)];
        notesAdded := notesAdded + 1;
      }
      i := i + 1;
    }
    assert items[..i] == items;
    KeptNotesFilled(items);
  }

  /** Every note of a kept item has a non-empty question and commentary. */
  lemma KeptNotesFilled(items: seq<Exercise>)
    ensures var ns := NotesOf(Filter(items, Exportable));
      forall i :: 0 <= i < |ns| ==> ns[i].question != [] && ns[i].commentary != []
  {
    var kept := Filter(items, Exportable);
    forall i | 0 <= i < |kept|
      ensures Exportable(kept[i])
    {
      FilterContents(items, Exportable, kept[i]);
    }
  }

  /** An item is exported exactly when its question and commentary are not
      blank, and `notes_added` counts the kept items. */
  lemma ExportedExactly(items: seq<Exercise>, e: Exercise)
    ensures e in Filter(items, Exportable) <==> e in items && Exportable(e)
    ensures IsSubsequence(Filter(items, Exportable), items)
  {
    FilterContents(items, Exportable, e);
    FilterIsSubsequence(items, Exportable);
  }
}
