/** `clean_text`: the line-noise filter. It is not on the path `main` takes
    (`main` hands the page text straight to `parse_exercises`), so it is
    modelled on its own. */
module Cleaner {
  import opened Strings
  import opened Seqs

  /** A raw line seen more often than this is taken for a header or footer. */
  const RepeatThreshold: nat := 3

  /** The regex `[\d\s]+` matches all of `s` (when `s` is not empty). */
  predicate AllDigitsOrSpace(s: string) {
    forall i :: 0 <= i < |s| ==> IsDigit(s[i]) || IsSpace(s[i])
  }

  /** The reasons, checked in the order the source checks them, for dropping
      `line` from the document `lines`: blank after stripping; its raw,
      unstripped text occurs more than three times; it holds a web address;
      it is a page number (digits only), or digits and spaces only. */
  predicate IsNoise(line: string, lines: seq<string>) {
    var t := Strip(line);
    t == []
    || multiset(lines)[line] > RepeatThreshold
    || Find(t, "www.").Some?
    || AllDigits(t)
    || AllDigitsOrSpace(t)
  }

  /** The kept lines: an order-preserving subsequence of `lines`, each line
      kept verbatim, a line value kept exactly when it is not noise, and then
      with every one of its occurrences. */
  function CleanLines(lines: seq<string>): (r: seq<string>)
    ensures IsSubsequence(r, lines)
    ensures forall x :: x in r <==> x in lines && !IsNoise(x, lines)
    ensures forall x :: multiset(r)[x] == if IsNoise(x, lines) then 0 else multiset(lines)[x]
  {
    var keep := (l: string) => !IsNoise(l, lines);
    var r := Filter(lines, keep);
    FilterIsSubsequence(lines, keep);
    assert forall x :: (x in r <==> x in lines && keep(x))
                    && multiset(r)[x] == (if keep(x) then multiset(lines)[x] else 0) by {
      forall x
        ensures (x in r <==> x in lines && keep(x))
        ensures multiset(r)[x] == (if keep(x) then multiset(lines)[x] else 0)
      {
        FilterContents(lines, keep, x);
      }
    }
    r
  }

  /** `clean_text(text)`: the kept lines of `text`, joined by line feeds. */
  function CleanText(text: string): string {
    Join(CleanLines(Split(text, "\n")), "\n")
  }

  /** `c` is what cleaning `lines` should give: empty exactly when every
      line is noise, and otherwise, read back line by line, exactly the
      kept lines. */
  predicate CleanedAs(lines: seq<string>, c: string) {
    && (c == [] <==> forall i :: 0 <= i < |lines| ==> IsNoise(lines[i], lines))
    && (c != [] ==> Split(c, "\n") == CleanLines(lines))
  }

  /** The cleaned text is empty exactly when every line is noise; otherwise
      reading it back line by line gives exactly the kept lines. */
  lemma CleanTextLines(text: string)
    ensures CleanedAs(Split(text, "\n"), CleanText(text))
  {
    JoinKeptLines(Split(text, "\n"));
  }

  lemma JoinKeptLines(lines: seq<string>)
    requires forall i :: 0 <= i < |lines| ==> !Contains(lines[i], "\n")
    ensures CleanedAs(lines, Join(CleanLines(lines), "\n"))
  {
    var kept := CleanLines(lines);
    KeptLinesShape(lines);
    if kept != [] {
      SplitJoinLines(kept);
      NonEmptyJoin(kept);
      NotAllNoise(lines);
    } else {
      AllNoise(lines);
    }
  }

  lemma NonEmptyJoin(kept: seq<string>)
    requires kept != [] && kept[0] != []
    ensures Join(kept, "\n") != []
  {
    JoinPrefix(kept, "\n");
  }

  lemma NotAllNoise(lines: seq<string>)
    requires CleanLines(lines) != []
    ensures !forall i :: 0 <= i < |lines| ==> IsNoise(lines[i], lines)
  {
    var x := CleanLines(lines)[0];
    assert x in CleanLines(lines);
    var i :| 0 <= i < |lines| && lines[i] == x;
    assert !IsNoise(lines[i], lines);
  }

  lemma AllNoise(lines: seq<string>)
    requires CleanLines(lines) == []
    ensures forall i :: 0 <= i < |lines| ==> IsNoise(lines[i], lines)
  {
    forall i | 0 <= i < |lines|
      ensures IsNoise(lines[i], lines)
    {
      assert lines[i] !in CleanLines(lines);
    }
  }

  /** Each kept line is non-blank and, coming from a split at line feeds,
      holds no line feed. */
  lemma KeptLinesShape(lines: seq<string>)
    requires forall i :: 0 <= i < |lines| ==> !Contains(lines[i], "\n")
    ensures forall i :: 0 <= i < |CleanLines(lines)| ==> CleanLines(lines)[i] != [] && '\n' !in CleanLines(lines)[i]
  {
    var kept := CleanLines(lines);
    forall i | 0 <= i < |kept|
      ensures kept[i] != [] && '\n' !in kept[i]
    {
      assert kept[i] in kept;
      var j :| 0 <= j < |lines| && lines[j] == kept[i];
      ContainsChar(lines[j], '\n');
      assert Strip(kept[i]) != [];
    }
  }

  /** `clean_text` is idempotent: every kept line keeps all of its
      occurrences, so cleaning the result again finds the same counts and
      drops nothing. */
  lemma CleanTextIdempotent(text: string)
    ensures CleanText(CleanText(text)) == CleanText(text)
  {
    var lines := Split(text, "\n");
    var kept := CleanLines(lines);
    var c := CleanText(text);
    CleanTextLines(text);
    if c == [] {
      assert Split(c, "\n") == [""] by {
        assert !Contains(c, "\n");
      }
      assert IsNoise("", [""]);
      assert CleanLines([""]) == [] by {
        assert "" !in CleanLines([""]);
      }
    } else {
      assert Split(c, "\n") == kept;
      forall i | 0 <= i < |kept|
        ensures !IsNoise(kept[i], kept)
      {
        assert kept[i] in kept;
        assert multiset(kept)[kept[i]] == multiset(lines)[kept[i]];
      }
      FilterKeepsAll(kept, (l: string) => !IsNoise(l, kept));
    }
  }
}
