# Grant-report line extractor, in Dafny

This project models `PdfParser.parsePdfLines` from a JavaFX grant-report viewer.
The function takes the text lines extracted from a PDF report of admission
scores and turns them into `StudentRecord`s `(faculty, fio, code, sumPoints)`.
It makes one forward pass, carrying `currentFaculty`, which starts as `null`.
Each line is one of four kinds:

- a **header**, which starts with Cyrillic "В0" or Latin "B" and becomes the current faculty;
- **noise**: empty, starting with "№", or containing "Сумма";
- **malformed**: fewer than four tokens after `split("\\s+")`, or a score token that
  `Integer.parseInt` rejects;
- a **data** row, which appends one record. Its code is the last token and its score
  is the second-to-last token. Its name is the tokens between the first and the
  score, each followed by a space, with the result trimmed.

Files:

- `wrappers.dfy`: `Option`. `None` stands for Java's `null`.
- `java_text.dfy`: the Java string operations the extractor uses:
  - `startsWith` and `contains`;
  - `split("\\s+")`, with `java.util.regex.Pattern.split` semantics and ASCII `\s`:
    a leading whitespace run gives an empty first token, and trailing empty tokens
    are dropped;
  - `trim()`, which removes every character up to U+0020 at both ends.
- `java_int.dfy`: the 32-bit `int` and `Integer.parseInt` in radix 10. `Integer.toString`
  is there as its inverse.
- `pdf_parser.dfy`:
  - the record type and the per-line classification `Classify`;
  - the pass, as a fold `Run` of `Step`;
  - the imperative `ParsePdfLines`, which mirrors the Java loop. It is proved to
    return exactly `Parse(lines)`, the fold from the start state.
  - the `StringBuilder` name loop, as the method `BuildFio`.
- `pdf_parser_props.dfy`: properties of the whole pass:
  - counting;
  - concatenation;
  - which header a record carries;
  - which lines are invisible;
  - the record each data line yields;
  - a round trip from record fields to a rendered row and back.
- `pdf_parser_scenarios.dfy`: worked inputs, each stated for the whole pass.

`fio` is the middle tokens, each followed by one space, then `trim()`ed. `trim()`
also removes control characters below U+0020 that `\s` does not match, so
`Classify` keeps it. `NameUntrimmed` proves that the trim changes nothing when
no name token contains such a character.

## Model

| member | source | states |
|---|---|---|
| PdfParser.ParsePdfLines | src/main/java/com/converter/pdf/PdfParser.java:47-89 | The Java loop (`continue` on every skipped line, one append per data line) returns exactly `Parse(lines)`, the fold of the per-line transition from faculty `null` and no records |
| PdfParser.StudentRecord | src/main/java/com/converter/pdf/PdfParser.java:8-45 | The record: faculty (`None` for `null`), fio, code and a 32-bit sumPoints, the four fields the setters fill |
| PdfParser.IsHeader | src/main/java/com/converter/pdf/PdfParser.java:52 | Defined as: the line starts with "В0" or with "B". HeaderStep and ConsecutiveHeaders state what such a line does to the pass |
| PdfParser.IsNoise | src/main/java/com/converter/pdf/PdfParser.java:57 | Defined as: the line is empty, starts with "№" or contains "Сумма". SkippedLineInvisible states that such a non-header line can be deleted |
| PdfParser.Advance | src/main/java/com/converter/pdf/PdfParser.java:53-86 | Defined as: a header replaces the faculty, a data line appends one record under the current faculty, and any other line changes nothing. RunIsFold states that the pass is the fold of it |
| PdfParser.Step | src/main/java/com/converter/pdf/PdfParser.java:51-87 | Defined as one iteration of the loop: Advance by the line's classification |
| PdfParser.Run | src/main/java/com/converter/pdf/PdfParser.java:51-87 | Defined as the loop over the lines from a given state. RunAppend, RunGrowth, RunFaculty and FoldProvenance state what it computes |
| PdfParser.Parse | src/main/java/com/converter/pdf/PdfParser.java:47-89 | Defined as the records of Run from faculty `null` and no records. ParsePdfLines is proved to return it, and Provenance and RecordCountBound characterise it |
| PdfParser.BuildFio | src/main/java/com/converter/pdf/PdfParser.java:74-78 | Appending `parts[i] + " "` for i from 1 below `parts.length - 2`, then trimming, gives the trimmed single-space join of the middle tokens |
| PdfParser.Classify | src/main/java/com/converter/pdf/PdfParser.java:52-72 | A line is a header exactly when it starts with "В0" or "B", and a header carries the line itself. Noise is only ever an empty, "№" or "Сумма" line. A data line's code is a non-empty token without whitespace, and its name neither starts nor ends with a character `trim()` removes |
| JavaText.NotContainedWithoutFirst | src/main/java/com/converter/pdf/PdfParser.java:57 | `contains(p)` is false when the first character of `p` occurs nowhere in the line |
| JavaText.StartsWith | src/main/java/com/converter/pdf/PdfParser.java:52 | Defined as: `p` is a prefix of `s`, as `String.startsWith` |
| JavaText.Contains | src/main/java/com/converter/pdf/PdfParser.java:57 | Defined as: `p` occurs in `s` at some offset, as `String.contains`. ContainsWitness returns such an offset |
| JavaText.ContainsWitness | src/main/java/com/converter/pdf/PdfParser.java:57 | When `contains` holds, gives an offset at which `p` occurs in `s` |
| JavaText.Split | src/main/java/com/converter/pdf/PdfParser.java:61 | Defined as `Pattern.split` with limit 0. A line without `\s` is its own single token. Otherwise it gives the segments around every maximal whitespace run, with trailing empty segments dropped. SplitShape, SplitOfJoinWith, SplitLeadingRun and SplitAllWs characterise it |
| JavaText.SplitShape | src/main/java/com/converter/pdf/PdfParser.java:61 | `split("\\s+")` gives tokens without whitespace, none of them empty except possibly the first. Their concatenation is the line with its whitespace removed. A line without whitespace is its own single token, and a non-empty line never ends in an empty token. Where the tokens break is stated by SplitOfJoinWith |
| JavaText.SplitOfJoin | src/main/java/com/converter/pdf/PdfParser.java:61 | Splitting tokens joined by single spaces gives the tokens back, for whitespace-free tokens that are all non-empty after the first |
| JavaText.SplitOfJoinWith | src/main/java/com/converter/pdf/PdfParser.java:61 | Tokens separated by any non-empty runs of `\s` characters, with an optional trailing run, split back into exactly those tokens. An empty first token stands for a leading run. So the tokens break exactly at the whitespace runs, whatever they hold (tabs, repeated spaces) |
| JavaText.SplitLeadingRun | src/main/java/com/converter/pdf/PdfParser.java:61 | A line that opens with whitespace and is not all whitespace splits with `""` at index 0 and at least one more token |
| JavaText.SplitAllWs | src/main/java/com/converter/pdf/PdfParser.java:61 | A non-empty line of whitespace only splits into no token at all |
| JavaText.SplitCases | src/main/java/com/converter/pdf/PdfParser.java:61 | `"a\t\tb  c "` splits into `["a", "b", "c"]`, `" a b"` into `["", "a", "b"]`, and `"   "` into the empty array, as `split("\\s+")` gives them |
| JavaText.JoinSpaced | src/main/java/com/converter/pdf/PdfParser.java:74-78 | Defined as the tokens joined by single spaces. JoinSpacedSnoc is the step of the `StringBuilder` loop that BuildFio is proved by |
| JavaText.JoinSpacedSnoc | src/main/java/com/converter/pdf/PdfParser.java:76 | Joining one more token adds one space and that token at the end, which is what one iteration of the name loop contributes |
| JavaText.PiecesShape | src/main/java/com/converter/pdf/PdfParser.java:61 | Before trailing empty tokens are dropped, the pieces between whitespace runs are whitespace-free. Only the first and last can be empty. Together they hold every non-whitespace character in order |
| JavaText.DropTrailingEmptyShape | src/main/java/com/converter/pdf/PdfParser.java:61 | Dropping trailing empty strings keeps a prefix, removes only empty strings, ends in a non-empty one, and loses no character |
| JavaText.Trim | src/main/java/com/converter/pdf/PdfParser.java:78 | The result of `trim()` is empty, or starts and ends with a character above U+0020 |
| JavaText.TrimStart | src/main/java/com/converter/pdf/PdfParser.java:78 | Defined as: drops every character up to U+0020 at the front. TrimStartShape characterises it |
| JavaText.TrimEnd | src/main/java/com/converter/pdf/PdfParser.java:78 | Defined as: drops every character up to U+0020 at the end. TrimEndShape characterises it |
| JavaText.TrimStartShape | src/main/java/com/converter/pdf/PdfParser.java:78 | Trimming the front leaves a suffix, whose first character is not blank, after removing only blank characters |
| JavaText.TrimEndShape | src/main/java/com/converter/pdf/PdfParser.java:78 | Trimming the end leaves a prefix, whose last character is not blank, after removing only blank characters |
| JavaText.TrimTrailingSpace | src/main/java/com/converter/pdf/PdfParser.java:76-78 | The space appended after the last name token does not survive `trim()` |
| JavaText.TrimOfTrimmed | src/main/java/com/converter/pdf/PdfParser.java:78 | `trim()` is the identity on a string that neither starts nor ends with a blank character |
| JavaInt.ParseInt | src/main/java/com/converter/pdf/PdfParser.java:68-72 | A parsed score comes from a non-empty token starting with a sign or a digit. It is at most zero after a leading minus and at least zero otherwise |
| JavaInt.ParseRender | src/main/java/com/converter/pdf/PdfParser.java:68-72 | `Integer.parseInt(Integer.toString(v)) == v` for every 32-bit value |
| JavaInt.ParseIntCases | src/main/java/com/converter/pdf/PdfParser.java:68-72 | "250", "+42", "-0" and "007" parse. The empty string, a lone sign, "abc", "12a" and "+-1" raise `NumberFormatException` (here `None`) |
| JavaInt.ParseIntBounds | src/main/java/com/converter/pdf/PdfParser.java:68-72 | 2147483647 and -2147483648 parse, and one beyond either end is rejected |
| PdfParserProps.RunIsFold | src/main/java/com/converter/pdf/PdfParser.java:51-87 | The pass depends on each line only through its kind: it is the fold of `Advance` over the lines' kinds |
| PdfParserProps.KindsAt | src/main/java/com/converter/pdf/PdfParser.java:51-72 | The kind at position j is the classification of line j |
| PdfParserProps.RunAppend | src/main/java/com/converter/pdf/PdfParser.java:51-87 | Running over `a + b` is running over `b` from the state left after `a` |
| PdfParserProps.RunKeepsRecords | src/main/java/com/converter/pdf/PdfParser.java:48-86 | The pass only appends: earlier records remain as a prefix, and what is added depends only on the carried faculty |
| PdfParserProps.ParseConcat | src/main/java/com/converter/pdf/PdfParser.java:48-86 | Parsing `a + b` gives the records of `a`, followed by the records of `b` parsed from the last faculty of `a` |
| PdfParserProps.RunGrowth | src/main/java/com/converter/pdf/PdfParser.java:51-87 | A stretch of lines never removes records and adds at most one per line |
| PdfParserProps.RecordCountBound | src/main/java/com/converter/pdf/PdfParser.java:51-87 | The result never has more records than there are input lines |
| PdfParserProps.LastHeaderAt | src/main/java/com/converter/pdf/PdfParser.java:52-55 | Gives the index of a header line with no header after it, or -1 when no line is a header |
| PdfParserProps.RunFaculty | src/main/java/com/converter/pdf/PdfParser.java:49-55 | After any stretch of lines the faculty is its last header line, or unchanged if the stretch has no header |
| PdfParserProps.FacultyIsNearestHeader | src/main/java/com/converter/pdf/PdfParser.java:49-55 | After any input, `currentFaculty` is the last header line, or `null` when there is none |
| PdfParserProps.RunWithoutData | src/main/java/com/converter/pdf/PdfParser.java:51-87 | Lines none of which is a data line add no record |
| PdfParserProps.ConsecutiveHeaders | src/main/java/com/converter/pdf/PdfParser.java:52-55 | A run of headers emits nothing and leaves the last of them in effect |
| PdfParserProps.HeaderStep | src/main/java/com/converter/pdf/PdfParser.java:52-55 | A header line, including any line whose first character is Latin B, replaces the faculty unconditionally and emits nothing |
| PdfParserProps.SkippedLineKind | src/main/java/com/converter/pdf/PdfParser.java:57-72 | A non-header line that is noise, has fewer than four tokens, or has an unparseable score is classified as noise or malformed |
| PdfParserProps.SkippedLineInvisible | src/main/java/com/converter/pdf/PdfParser.java:57-72 | Such a line leaves every state unchanged, so deleting it from anywhere in the input changes neither the records nor the faculty |
| PdfParserProps.DataIndices | src/main/java/com/converter/pdf/PdfParser.java:80-86 | Lists exactly the positions of data kinds, in increasing order |
| PdfParserProps.FoldProvenance | src/main/java/com/converter/pdf/PdfParser.java:80-86 | The k-th record added is built from the k-th data kind and the faculty in effect just before it |
| PdfParserProps.KindsAll | src/main/java/com/converter/pdf/PdfParser.java:51-72 | Every kind in the sequence is the classification of the line at that position |
| PdfParserProps.DataLines | src/main/java/com/converter/pdf/PdfParser.java:80-86 | Lists exactly the positions of data lines, in increasing order |
| PdfParserProps.Provenance | src/main/java/com/converter/pdf/PdfParser.java:80-86 | There is one record per data line, in input order. Each record has that line's name, code and score, and the faculty in effect just before the line (the nearest preceding header, or `null`) |
| PdfParserProps.FourTokenLine | src/main/java/com/converter/pdf/PdfParser.java:66-78 | For a four-token data line, the name is token 1 trimmed, the code is token 3, and the score is the parse of token 2 |
| PdfParserProps.RowTokens | src/main/java/com/converter/pdf/PdfParser.java:61 | A row rendered from an ordinal, name tokens, a score and a code splits back into exactly those columns |
| PdfParserProps.NameUntrimmed | src/main/java/com/converter/pdf/PdfParser.java:74-78 | For name tokens without blank characters the final `trim()` changes nothing |
| PdfParserProps.RowRoundTrip | src/main/java/com/converter/pdf/PdfParser.java:61-78 | A rendered row that is neither header nor noise is classified as data with exactly the name, code and score it was rendered from |
| PdfParserProps.RowBelowHeader | src/main/java/com/converter/pdf/PdfParser.java:52-86 | A header followed by a rendered row gives one record with that header and the row's fields |
| PdfParserProps.TwoHeadersThenData | src/main/java/com/converter/pdf/PdfParser.java:52-86 | A data line below two consecutive headers gives one record, of the second header |
| PdfParserProps.DataAfter | src/main/java/com/converter/pdf/PdfParser.java:80-86 | A data line appended to any input adds exactly its own record, under the faculty in effect at the end of that input |
| PdfParserProps.DataBelowHeaders | src/main/java/com/converter/pdf/PdfParser.java:52-86 | A data line below one or more headers gives one record, of the last header |
| PdfParserScenarios.AsciiCandidate | src/main/java/com/converter/pdf/PdfParser.java:52-57 | An ASCII line that starts with a digit or with a Latin letter other than B is neither a header nor noise |
| PdfParserScenarios.HeaderThenRow | src/main/java/com/converter/pdf/PdfParser.java:47-89 | "В0101 Faculty of Law" then "1 Ivan Petrov 250 A100" gives the single record (that faculty, "Ivan Petrov", "A100", 250) |
| PdfParserScenarios.TitleAndTotals | src/main/java/com/converter/pdf/PdfParser.java:57-59 | The column-title row "№" and a totals row "Сумма баллов: 500" give no record |
| PdfParserScenarios.XyzMalformed | src/main/java/com/converter/pdf/PdfParser.java:61-64 | "x y z" has three tokens and is malformed |
| PdfParserScenarios.ShortRowDropped | src/main/java/com/converter/pdf/PdfParser.java:61-64 | A header followed by "x y z" gives no record |
| PdfParserScenarios.AnnaMalformed | src/main/java/com/converter/pdf/PdfParser.java:68-72 | "1 Anna Ivanova abc A200" is malformed, because "abc" is not a number |
| PdfParserScenarios.NonNumericScoreDropped | src/main/java/com/converter/pdf/PdfParser.java:68-72 | That line alone gives no record |
| PdfParserScenarios.XKind | src/main/java/com/converter/pdf/PdfParser.java:66-78 | "1 X 10 C1" is data with name "X", code "C1" and score 10 |
| PdfParserScenarios.LastHeaderWins | src/main/java/com/converter/pdf/PdfParser.java:52-55 | Of the headers "B1" and "B2" the second is in effect for the data line below them |
| PdfParserScenarios.LatinBRowIsHeader | src/main/java/com/converter/pdf/PdfParser.java:52-55 | The data-looking row "B7 Boris Orlov 300 A1" is taken for a header. It gives no record and becomes the faculty of the next row |

## Left out

- `PdfReaderService` is not part of this model. It loads the PDF through PDFBox, extracts its text, splits it on `\r?\n` and trims each line. The model takes the resulting lines as its input and assumes nothing about them: untrimmed lines are handled as the Java code would handle them.
- `DBService` is not part of this model. It inserts records through JDBC, which is persistence outside the extractor.
- `PdfGrantViewerApp` is not part of this model. It covers the JavaFX UI, the H2 database setup, the file chooser, the background `Task`/`Thread`, and the search filter and grouping inside UI listeners. Those depend on locale-sensitive `toLowerCase` and `HashMap` iteration order.
- JavaInt.ParseInt: accepts only ASCII digits. Java's `Character.digit` also accepts other Unicode decimal digits (Arabic-Indic, full-width and so on), so the model rejects some scores Java would accept.
- Java strings are sequences of UTF-16 code units, and Dafny strings are sequences of Unicode scalar values. Every literal the extractor tests ("В0", "B", "№", "Сумма") lies in the Basic Multilingual Plane, so prefixes and substrings agree. Lengths differ for text outside that plane, but the extractor never uses a length.
- StudentRecord: an immutable value. Java fills a fresh bean through four setters and never changes it after it is added, so a value with the same four fields gives the same result.
- A `null` element in the input list would make `line.startsWith` throw `NullPointerException`. Lines are never `null` here, because `seq<string>` has no null.
- The `ArrayList` that `records` is built in is a local sequence in the model. Nothing else holds a reference to it while the loop runs, so there is no aliasing to model.
