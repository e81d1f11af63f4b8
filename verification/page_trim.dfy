/** The per-page slicing of `extract_text_from_pdf`: every page loses a
    three-line header and a three-line footer, when it has them. */
module PageTrim {
  import opened Strings

  /** Lines removed from the top and, afterwards, from the bottom. */
  const HeaderLines: nat := 3
  const FooterLines: nat := 3

  /** The two guards run one after the other, so the footer guard sees the
      page after the header is gone: a page of four to six lines keeps its
      last lines and loses only its header. */
  function TrimPage(lines: seq<string>): (r: seq<string>)
    ensures |lines| <= 3 ==> r == lines
    ensures 3 < |lines| <= 6 ==> r == lines[3..]
    ensures 6 < |lines| ==> r == lines[3..|lines| - 3]
    ensures |lines| > 0 ==> |r| > 0
  {
    var body := if |lines| > HeaderLines then lines[HeaderLines..] else lines;
    if |body| > FooterLines then body[..|body| - FooterLines] else body
  }

  /** The text one page contributes, before the trailing line feed. */
  function PageText(text: string): string {
    Join(TrimPage(Split(text, "\n")), "\n")
  }

  /** Every page with text contributes its trimmed lines and a line feed;
      pages without text (an image-only page gives `None` or `""`) are
      skipped. */
  function ExtractText(pages: seq<string>): (r: string)
    ensures r == [] <==> forall i :: 0 <= i < |pages| ==> pages[i] == []
    decreases |pages|
  {
    if pages == [] then ""
    else
      var head := if pages[0] == [] then "" else PageText(pages[0]) + "\n";
      var r := head + ExtractText(pages[1..]);
      assert forall i :: 1 <= i < |pages| ==> pages[i] == pages[1..][i - 1];
      r
  }

  /** Reading a page's contribution back line by line recovers exactly the
      lines `TrimPage` kept: the join loses nothing. */
  lemma PageTextLines(text: string)
    ensures Split(PageText(text), "\n") == TrimPage(Split(text, "\n"))
  {
    var lines := Split(text, "\n");
    var kept := TrimPage(lines);
    forall i | 0 <= i < |kept|
      ensures '\n' !in kept[i]
    {
      assert kept[i] in lines;
      var j :| 0 <= j < |lines| && lines[j] == kept[i];
      ContainsChar(lines[j], '\n');
    }
    SplitJoinLines(kept);
  }
}
