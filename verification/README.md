# Exercise extraction for an Estratégia lesson PDF, modelled in Dafny

This project models the pure core of a small Python tool. The tool turns the text of a course PDF into a list of exercise records and then into Anki flash cards.

- **Page trimming** (`PageTrim`): each page's text is split into lines. The tool drops a three-line header and then a three-line footer when the page has enough lines, and joins the rest.
- **Line-noise cleaning** (`Cleaner`, `clean_text`): drops these lines:
  - blank lines;
  - lines whose raw text repeats more than three times;
  - web addresses;
  - page numbers;
  - digit-and-space lines.
- **Exercise segmentation** (`Numerals`, `Segmenter`, `parse_exercises`): the text is split at numeral markers `\n<spaces><digits>.<spaces>`. Each marker starts one exercise record. The record has:
  - a positional id `15-ort-NNN`;
  - the marker's number;
  - a *meta* annotation (the first parenthesised group);
  - the official *answer*;
  - a *question*/*commentary* split;
  - three fallback corrections, applied in a fixed order.
- **Anki export** (`AnkiExport`):
  - `format_html` collapses a text into stripped, non-blank lines joined by `<br>`;
  - the export loop skips items whose question or commentary is blank, builds a note for every other item, and counts the notes.

Python's string operations are modelled over `seq<char>` in `Strings`:
- `str.strip`, `str.split`, `str.join`, `str.replace` and `str.find`;
- `re.search`, as the leftmost position where a scanner matches;
- decimal digits and zero-padding.

Every regular expression of the source is written as a scanner that decides whether a match starts at one position. `Seqs` holds the generic filter and map. The line cleaner, the export loop and the reference definition of `format_html`'s comprehension use them.

Two behaviours of the code are easy to misread. The model follows the code as written:
- The label `Coment[aá]rios?:` is matched case-sensitively. The code passes no `re.IGNORECASE` flag for it.
- When the source splits on that label, a `Gabarito: …` line that follows the label stays inside the commentary. The commentary is everything after the label, stripped.

## Model

| member | source | states |
|---|---|---|
| PageTrim.TrimPage | estrategia_jsonier.py:28-34 | A page of at most three lines is kept whole. A page of four to six lines loses only its first three lines, because the footer guard sees the page after the header is gone. A longer page loses three lines at each end. A non-empty page never becomes empty. |
| PageTrim.PageTextLines | estrategia_jsonier.py:28-36 | Splitting a page's joined text at line feeds gives back exactly the lines the trim kept. |
| PageTrim.ExtractText | estrategia_jsonier.py:22-40 | The extracted text is empty exactly when every page has no text. |
| Cleaner.CleanLines | estrategia_jsonier.py:50-81 | The kept lines form an order-preserving subsequence of the input. A line value is kept exactly when it is not noise, and then with all of its occurrences. |
| Cleaner.CleanTextLines | estrategia_jsonier.py:50-83 | The cleaned text is empty exactly when every line is noise. Otherwise, splitting it at line feeds gives back exactly the kept lines. |
| Cleaner.CleanTextIdempotent | estrategia_jsonier.py:50-83 | Cleaning an already cleaned text changes nothing. |
| Numerals.MatchMarker | estrategia_jsonier.py:89 | A marker the scanner reports at a position is a match of the marker pattern that starts there. Its whitespace and digit runs are the maximal ones the greedy pattern takes. |
| Numerals.MatchMarkerComplete | estrategia_jsonier.py:89 | Every match of the marker pattern at a position is the one the scanner returns. |
| Numerals.FindMarkers | estrategia_jsonier.py:89 | The split's markers are matches, in increasing and non-overlapping order. No match starts in the gaps the split skips over. |
| Numerals.ChunkContents | estrategia_jsonier.py:89-95 | Each chunk's content is the text of the input starting at the end of its marker. No marker match starts inside it, and it stops at the end of the input or where a marker match starts: it is the longest marker-free run there, which is what `re.split` leaves between two separators. |
| Numerals.MarkerFreeRunUnique | estrategia_jsonier.py:89-95 | From a given position there is only one such longest marker-free run, so the chunk contents are fully determined by the marker positions. |
| Numerals.ChunksRebuildText | estrategia_jsonier.py:89-95 | The text before the first marker, followed by each marker's own text and its chunk's content in turn, rebuilds the input exactly. |
| Numerals.ChunkTextsHoldNoMarker | estrategia_jsonier.py:89-95 | No marker match starts at any position inside a chunk's content, so each marker opens exactly one chunk. |
| Numerals.PreambleHoldsNoMarker | estrategia_jsonier.py:89 | No marker match starts in the text before the first marker, so that text yields no record. |
| Numerals.ChunkNumbers | estrategia_jsonier.py:89-94 | Each chunk's number is the one its marker's digits spell: those digits are some leading zeros followed by the number's decimal numeral, as `int()` reads them. |
| Fields.ExtractMeta | estrategia_jsonier.py:101-102 | The meta holds no `)` and no line feed, and it is stripped. It is empty when no group closes on its own line. |
| Fields.MetaIsFirstGroup | estrategia_jsonier.py:101-102 | The meta is the stripped text of the leftmost group that closes on its line. |
| Fields.MetaSpanIsFirstOccurrence | estrategia_jsonier.py:101-104 | When the group needs no stripping, `(meta)` first occurs exactly where the group was found. The replace therefore removes that span. |
| Fields.MetaRemovalCanLeaveOccurrence | estrategia_jsonier.py:101-104 | Counterexample: removing `(meta)` can leave an occurrence of it behind. Content `(x)((x)x)` has meta `x` and becomes `(x)`. |
| Fields.VerdictAt | estrategia_jsonier.py:112-116 | A word reported at a position comes from a match there: `gabarito:` ignoring case, a whitespace run, then `correto` or `errado` ignoring case. The word is that match, capitalised. |
| Fields.VerdictAtComplete | estrategia_jsonier.py:112-116 | Every such match at a position is reported there, with its capitalised word. |
| Fields.LetterAt | estrategia_jsonier.py:113-118 | A letter reported at a position comes from a match there: `Gabarito`, a whitespace run, `letra` or `Letra`, a whitespace run, and a letter A-E. The letter is the matched one. |
| Fields.LetterAtComplete | estrategia_jsonier.py:113-118 | Every such match at a position is reported there, with its matched letter. |
| Fields.ExtractAnswer | estrategia_jsonier.py:110-118 | The answer is one of `""`, `Correto`, `Errado` or a letter A-E. With a verdict match anywhere, the answer is the word of the leftmost verdict match. Without one but with a letter match, it is the letter of the leftmost letter match. With neither, the answer is empty. |
| Fields.SplitQuestion | estrategia_jsonier.py:125-148 | On stripped input, both the question and the commentary are stripped. |
| Fields.CommentLabelSplit | estrategia_jsonier.py:125-129 | With a `Comentário(s):` label, the question is the stripped text before the first label and the commentary is the stripped text after it. The question holds no label. |
| Fields.AlternativesSplit | estrategia_jsonier.py:131-145 | Without a label, and with an alternative marker before `Gabarito`, the question ends with the last marker's `X)`. The commentary holds no alternative marker. |
| Fields.AlternativesSplitAt | estrategia_jsonier.py:131-145 | Without a label, with `q` the last alternative marker in the text before `Gabarito`, the question is that text up to the end of the marker's `X)` and the commentary is the text after it, both stripped. |
| Fields.NoAlternativesSplit | estrategia_jsonier.py:131-148 | Without a label and without an alternative marker, the question is all of the text before `Gabarito` and the commentary is empty. |
| Fields.LastAltFindsAny | estrategia_jsonier.py:139-142 | The last alternative is found exactly when one exists, and no alternative lies after it. |
| Fields.QuestaoAt | estrategia_jsonier.py:156-159 | A word reported at a position comes from a match there: `quest`, `a` or `ã`, `o` ignoring case, a non-empty whitespace run, then `correta` (giving `Correto`) or `errada` (giving `Errado`) ignoring case. |
| Fields.QuestaoAtComplete | estrategia_jsonier.py:156-159 | Every such match at a position is reported there, with its word. |
| Fields.QuestaoRule | estrategia_jsonier.py:154-165 | Fallback 1 never changes an existing answer. With an empty answer and no `Questão correta/errada` match, nothing changes. With a match, the answer is the word of the leftmost match. The question then becomes the stripped text before the first line feed and the commentary the stripped text after it; without a line feed both parts stay. Both parts stay stripped. |
| Fields.EchoAnswerRule | estrategia_jsonier.py:167-169 | Fallback 2 keeps the answer and the question. It changes nothing without an answer or with a non-blank commentary. With an answer and a blank commentary, the commentary becomes the answer. |
| Fields.SentencesShape | estrategia_jsonier.py:177 | No sentence holds a break. Every sentence but the last ends with a period. There are several sentences exactly when the text has a period followed by whitespace. |
| Fields.FirstSentenceIs | estrategia_jsonier.py:177 | The first sentence is the text up to the first period that whitespace follows, that period included. |
| Fields.SentencesRebuild | estrategia_jsonier.py:177 | The sentences, with the whitespace runs they were split at put back between them, rebuild the text exactly. Each run is whole: non-empty, and the sentence after it does not start with whitespace. |
| Fields.SentencesUnique | estrategia_jsonier.py:177 | The split is determined by the text. Take any list of sentences that hold no break, all but the last ending with a period, that rebuild the text with whole whitespace runs between them. That list is the split's result. |
| Fields.SentenceRuleApplies | estrategia_jsonier.py:171-180 | Fallback 3 changes the record exactly when the commentary is empty, the question has no alternative marker, and the question has a sentence break. |
| Fields.SentenceRuleSplits | estrategia_jsonier.py:171-180 | When fallback 3 changes the question, the new question is the stripped first sentence: the question's text up to its first period that whitespace follows. The commentary is the other sentences joined by single spaces and stripped. Any such sentence list of the question (see `Fields.SentencesUnique`) gives these same parts. |
| Fields.ApplyFallbacks | estrategia_jsonier.py:154-180 | After the three fallbacks the record is well formed: an allowed answer, a non-empty commentary whenever there is an answer, and stripped parts. An existing answer is kept. |
| Fields.ExtractFields | estrategia_jsonier.py:100-180 | Every chunk yields a well-formed record. Its meta is the stripped text of the chunk's first group and holds no `)` and no line feed. |
| Fields.AnswerPrecedence | estrategia_jsonier.py:110-159 | The `Gabarito: Correto/Errado` match decides the answer first. The `Gabarito letra` match decides it only without that match. `Questão correta/errada` decides it only when neither matches. |
| Segmenter.ParseExercises | estrategia_jsonier.py:86-195 | There is one record per marker. Record `i` is built from chunk `i`: its id is exactly `15-ort-` and the counter `i + 1` padded to three digits, its number is the chunk's number, and its meta and parts are the fields extracted from the chunk. Every record is well formed. |
| Segmenter.RecordNumbers | estrategia_jsonier.py:89-94 | Record `i`'s number is the one marker `i`'s digits spell: leading zeros followed by the number's decimal numeral. |
| Segmenter.ExerciseIdsDistinct | estrategia_jsonier.py:184 | No two records of one text share an id. |
| Segmenter.ExerciseIdEncodes | estrategia_jsonier.py:184 | The counter can be read back from its id. Below 1000 the id has exactly three digits. |
| Segmenter.NoMarkerNoExercises | estrategia_jsonier.py:89-93 | A text yields no record exactly when no marker matches anywhere in it. |
| AnkiExport.FormatHtml | anki_exporter.py:9-17 | The result holds no line feed or carriage return and is stripped. It is empty exactly when the input is blank. |
| AnkiExport.ParagraphsAreStrippedLines | anki_exporter.py:16 | The comprehension equals its reference definition: keep the non-blank lines, then strip each. |
| AnkiExport.ParagraphsOfStripped | anki_exporter.py:14-16 | Stripping the text before splitting it into lines changes none of the paragraphs. |
| AnkiExport.FormatHtmlLines | anki_exporter.py:9-17 | The result is the normalised text's lines, non-blank ones kept and each stripped, joined by `<br>`. The outer strip is not needed. |
| AnkiExport.FormatHtmlFixpoints | anki_exporter.py:9-17 | `format_html` leaves a text unchanged exactly when the text is a stripped single line. |
| AnkiExport.FormatHtmlIdempotent | anki_exporter.py:9-17 | Formatting twice is the same as formatting once. |
| AnkiExport.NumberField | anki_exporter.py:88 | The number field is empty exactly for the falsy number 0. Otherwise its digits read back to the number, with no leading zero. |
| AnkiExport.ToNote | anki_exporter.py:68-90 | A note has a non-empty question and commentary exactly when the item passes the skip test. No formatted field holds a line feed. |
| AnkiExport.ToNoteFields | anki_exporter.py:68-90 | Each note field comes from its own item field, in the order question, commentary, answer, meta, id, number. Each text field is the stripped item text's non-blank lines, each stripped, joined by `<br>`. The id is the stripped id. The number field is empty for 0 and otherwise the number's decimal numeral. The stable id is hashed from the stripped question followed by the stripped commentary. |
| AnkiExport.ExportDeck | anki_exporter.py:65-94 | The notes are those of the kept items, in order. The counter equals the number of notes. Every note has a non-empty question and commentary. |
| AnkiExport.ExportedExactly | anki_exporter.py:67-73 | An item is exported exactly when its question and commentary are not blank. The kept items form an order-preserving subsequence. |
| Strings.Strip | estrategia_jsonier.py:59 | The stripped text starts and ends with non-whitespace and is no longer than the input. It is empty exactly when the input is all whitespace. |
| Strings.StripUnique | estrategia_jsonier.py:59 | Whenever a text is blank text, then a stripped text, then blank text, `strip` returns the middle part. |
| Strings.SplitFirstLine | estrategia_jsonier.py:162-165 | Splitting at line feeds gives first the text before the first line feed, and the other pieces join back to the text after it. Without a line feed there is one piece. |
| Strings.DigitsAreNumeral | estrategia_jsonier.py:94 | A non-empty run of digits is some leading zeros followed by the decimal numeral of the value it denotes. |
| Strings.ZeroPad | estrategia_jsonier.py:184 | The padded counter is all digits, at least `width` long, and reads back to the counter. |

## Left out

- Reading the PDF (`pdfplumber`), reading and writing JSON, printing, and writing the `.apkg` package: all I/O.
  - A page's text is a parameter; the pages with no text are modelled as empty strings.
- The `genanki` model, deck and package objects: foreign library calls.
  - The export loop returns the list of notes it would add.
- `stable_id`, the MD5 hash of a note's text: hashing is foreign code.
  - The note carries the string that is hashed (`guidKey`).
- The two further copies of the loop after the first `return` of `parse_exercises` (lines 196-300): they never run.
- The `DEBUG` cap on the number of records: `DEBUG` is the constant `False`, so the cap never applies.
- `main`: it only wires file I/O around text extraction and `parse_exercises`. `clean_text` is not on its path and is modelled on its own.
- Unicode character classes: `\s`, `\d` and `str.strip` are modelled for ASCII only.
  - Whitespace is tab to carriage return, 0x1C-0x1F and space; digits are `0`-`9`.
  - Python's non-ASCII whitespace and digits are not modelled.
- Case-insensitive matching follows simple lower-casing of ASCII and Latin-1 letters only. Python's full Unicode folding (for example U+017F matching `s`) is not modelled.
- Missing JSON keys and `None` values in the exporter (`item.get(...) or ""`): a record of `parse_exercises` always has every field. Only the falsy number 0 is modelled, in `NumberField`.
- Fields.CleanContent: the property "no `(meta)` is left in the cleaned content" does not hold, so it is not claimed. `Fields.MetaRemovalCanLeaveOccurrence` proves a counterexample. `Fields.MetaSpanIsFirstOccurrence` proves the weaker fact that the meta's own span is removed when the group needs no stripping.
- PageTrim.ExtractText: its contract states only when the text is empty. What each page contributes is stated by `PageTrim.PageTextLines`.
- Fields.SplitQuestion: its own contract covers stripping only. Its branches are stated exactly by three lemmas: `Fields.CommentLabelSplit` for the label, `Fields.AlternativesSplitAt` for an alternative marker, and `Fields.NoAlternativesSplit` for neither.
