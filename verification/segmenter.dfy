/** `parse_exercises`: one record per numeral marker, in the order of the
    markers, each with a positional id and the fields of its chunk. */
module Segmenter {
  import opened Strings
  import opened Numerals
  import opened Fields

  /** The fixed id prefix of the lesson the extractor was written for. */
  const IdPrefix: string := "15-ort-"

  /** The minimum number of digits of the counter in an id (`:03`). */
  const IdWidth: nat := 3

  /** One extracted exercise, as written to the JSON output. */
  datatype Exercise = Exercise(
    id: string,
    number: nat,
    meta: string,
    question: string,
    commentary: string,
    answer: string)

  /** `f"15-ort-{counter:03}"`. */
  function ExerciseId(counter: nat): string {
    IdPrefix + ZeroPad(counter, IdWidth)
  }

  /** The counter an id carries: the decimal value of its digits after the
      prefix. */
  predicate IdEncodes(id: string, counter: nat) {
    && |id| >= |IdPrefix| + IdWidth
    && id[..|IdPrefix|] == IdPrefix
    && AllDigits(id[|IdPrefix|..])
    && DecimalValue(id[|IdPrefix|..]) == counter
  }

  /** What every record keeps: its id carries its position, its fields keep
      the record invariant and its meta is a single group's text. */
  predicate ValidRecord(e: Exercise, counter: nat) {
    && IdEncodes(e.id, counter)
    && WellFormed(Parts(e.question, e.commentary, e.answer))
    && ')' !in e.meta && '\n' !in e.meta
  }

  /** `e` is the record of chunk `c` at 1-based position `counter`: the
      chunk's number, the id `15-ort-NNN` of the counter, and the meta and
      fields extracted from the chunk's content. */
  predicate RecordOf(e: Exercise, c: Chunk, counter: nat) {
    && e.number == c.number
    && e.id == ExerciseId(counter)
    && (e.meta, Parts(e.question, e.commentary, e.answer)) == ExtractFields(c.content)
  }

  /** The record for a chunk and its 1-based position. */
  function ToExercise(c: Chunk, counter: nat): (e: Exercise)
    ensures ValidRecord(e, counter)
    ensures RecordOf(e, c, counter)
  {
    var mf := ExtractFields(c.content);
    var id := ExerciseId(counter);
    assert id[..|IdPrefix|] == IdPrefix && id[|IdPrefix|..] == ZeroPad(counter, IdWidth);
    Exercise(id, c.number, mf.0, mf.1.question, mf.1.commentary, mf.1.answer)
  }

  /** The records of `text`: one per marker found by the split, in order.
      Record `i` is numbered by its marker's digits, carries the counter
      `i + 1` in its id, whatever the numbers in the text are, and holds the
      fields extracted from chunk `i`. */
  function ParseExercises(text: string): (r: seq<Exercise>)
    ensures |r| == |FindMarkers(text, 0)|
    ensures forall i :: 0 <= i < |r| ==> ValidRecord(r[i], i + 1)
    ensures forall i :: 0 <= i < |r| ==> RecordOf(r[i], Chunks(text)[i], i + 1)
  {
    Records(Chunks(text))
  }

  /** The records of a chunk list, counted from 1. */
  function Records(cs: seq<Chunk>): (r: seq<Exercise>)
    ensures |r| == |cs|
    ensures forall i :: 0 <= i < |r| ==> ValidRecord(r[i], i + 1) && RecordOf(r[i], cs[i], i + 1)
  {
    seq(|cs|, i requires 0 <= i < |cs| => ToExercise(cs[i], i + 1))
  }

  /** Record `i` is numbered by the digits of marker `i`, read as a
      decimal integer: the digits are the number's numeral after any
      leading zeros. */
  lemma RecordNumbers(text: string)
    ensures var r := ParseExercises(text); var ms := FindMarkers(text, 0);
      forall i :: 0 <= i < |r| ==> NumberedBy(text, ms[i], r[i].number)
  {
    ChunkNumbers(text);
    assert ParseExercises(text) == Records(Chunks(text));
  }

  /** Two ids that encode different counters differ. */
  lemma IdsDiffer(a: string, b: string, i: nat, j: nat)
    requires IdEncodes(a, i) && IdEncodes(b, j) && i != j
    ensures a != b
  {
  }

  /** Ids are unique across the records of one text. */
  lemma ExerciseIdsDistinct(text: string)
    ensures var r := ParseExercises(text);
      forall i, j :: 0 <= i < j < |r| ==> r[i].id != r[j].id
  {
    var r := ParseExercises(text);
    forall i, j | 0 <= i < j < |r|
      ensures r[i].id != r[j].id
    {
      IdsDiffer(r[i].id, r[j].id, i + 1, j + 1);
    }
  }

  /** The counter of an id is recovered from it, whatever its width. */
  lemma ExerciseIdEncodes(counter: nat)
    ensures IdEncodes(ExerciseId(counter), counter)
    ensures counter < 1000 ==> |ExerciseId(counter)| == |IdPrefix| + IdWidth
  {
    var id := ExerciseId(counter);
    assert id[..|IdPrefix|] == IdPrefix && id[|IdPrefix|..] == ZeroPad(counter, IdWidth);
    if counter < 1000 {
      DecimalBelowThousand(counter);
    }
  }

  /** A counter below 1000 has at most three digits. */
  lemma {:induction false} DecimalBelowThousand(n: nat)
    requires n < 1000
    ensures |Decimal(n)| <= 3
  {
    if n >= 10 {
      assert Decimal(n) == Decimal(n / 10) + [DigitChar(n % 10)];
      if n / 10 >= 10 {
        assert Decimal(n / 10) == Decimal(n / 100) + [DigitChar(n / 10 % 10)];
      }
    }
  }

  /** A text yields no record exactly when no marker match starts anywhere
      in it; in particular the text before the first marker never yields
      one. */
  lemma NoMarkerNoExercises(text: string)
    ensures ParseExercises(text) == [] <==> forall q: nat :: q <= |text| ==> MatchMarker(text, q).None?
  {
    var ms := FindMarkers(text, 0);
    if ms == [] {
      forall q: nat | q <= |text|
        ensures MatchMarker(text, q).None?
      {
        assert InGap(ms, q);
      }
    } else {
      MatchMarkerComplete(text, ms[0]);
    }
  }
}
