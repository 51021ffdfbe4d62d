# TCCP exam practice: collection CSV, answering and scoring

This project is a Dafny model of the data rules of the TCCP exam-practice web app. The
question records come from `types.ts`; the rules live in `App.tsx`. The model covers:

- **Export** of the saved collection to CSV (`handleExport`). It writes a seven-column
  header, then one row per saved question. Every field is put in double quotes with each
  embedded quote doubled. Rows are joined by LF after the prefix `data:text/csv;charset=utf-8,`
  and a byte order mark. The options column is `JSON.stringify(options)`, written out
  concretely in `Json`.
- **Import** of such a file (`reader.onload` in `handleImport`), as written:
  - the text is split on `\r?\n` and blank lines are dropped;
  - the first line is dropped as the header;
  - each row is tokenised by the global regex `/(".*?"|[^",\s]+)(?=\s*,|\s*$)/g`, modelled
    as a left-to-right scan (`Csv.Tokens`), and each token is unquoted;
  - rows with fewer than seven tokens are skipped;
  - fields get their defaults (`parseInt(...) || 1`, `"未知知识点"`, `"空题目"`, `"暂无解析"`);
  - ids are `import-<Date.now()>-<index>`;
  - `JSON.parse` may throw, which abandons the whole import.
- **Answering**:
  - `toggleOption` on a question card;
  - the practice session's answer map and its submit flags;
  - `checkCorrect` and `hasAnswered`;
  - the batch-submit gate, which counts answer keys;
  - the exam score, 5 points per question whose sorted, comma-joined answer equals the
    sorted, comma-joined key.
- **The collection**: `toggleCollection` and the text-deduplicating merge
  `handleImportCollections`.

The import, as written, loses exported questions that have options. The options column
always contains `","`: the quote that closes the first option's id, then a comma. The lazy
quoted alternative of the regex closes the field there. `JSON.parse` of the cut text throws,
and the whole import is abandoned. The model proves this for every collection whose
questions all have options, fit on one line, have option ids and texts free of the four
JavaScript line terminators (LF, CR, U+2028 and U+2029, the last two of which
`JSON.stringify` leaves unescaped), and have a topic and question text the regex reads back
whole (`RoundTrip.ExportImportLosesOptions`). Section "Findings" records this.
The model also proves a corrected reader: the field rules of RFC 4180, section 2
(`CsvRecord.ParseRow`). With it, an exported collection comes back whole, each question under
its new id (`RoundTrip.FixedRoundTrip`), provided two things hold. First, each question
survives the import's own field rules: it fits on one line, its chapter is not 0, its topic,
question and explanation are not empty, and its correct answers are a non-empty list of
comma-free ids. Second, `JSON.parse` reads back what `JSON.stringify` wrote for its options.

Modules, in dependency order:

| Module | Contents |
|---|---|
| `Wrappers` | `Maybe`, `Result` |
| `Types` | the records of `types.ts` |
| `Text` | the JavaScript string primitives the app uses: `\s`, line terminators, `split`/`join`, `split(/\r?\n/)`, `String(n)` of an integer and `parseInt` |
| `Sorting` | `Array.prototype.sort()` on strings |
| `Csv` | export quoting, the regex tokenizer, unquoting |
| `Json` | `JSON.stringify` of an option list |
| `Export` | the export document |
| `Import` | the import as written |
| `CsvRecord` | the corrected row reader |
| `RoundTrip` | export followed by import, as written and corrected |
| `Scoring` | the answer key, `checkCorrect`, the exam score, the submit gate |
| `Answering` | `toggleOption` and the `AnswerSheet` class |
| `Collections` | the collection functions and the `Collection` class |

Behaviours of the code a reader may not expect:

- An options column that is not valid JSON makes `JSON.parse` throw. That aborts the whole
  import, rows before and after it included.
- The answers column is written in the stored order. `App.tsx:137` sorts `correctAnswers` in
  place while rendering, so the stored order is arbitrary.
- An empty answers column imports as `[""]`, a list holding one empty id.
- Correctness compares sorted, comma-joined strings:
  - duplicates count, so `["A","A"]` differs from `["A"]`;
  - an option id that contains a comma can make different lists compare equal.
- In the exam, a question with no entry is scored as the empty answer. It earns 5 points
  when its key is `[]` or `[""]`. In practice mode, `checkCorrect` is false when the entry
  is missing.
- The batch-submit gate counts keys of the answer map. An entry emptied by toggling still
  counts.
- Export then import is not a round trip for any question with options (see "Findings"). Nor
  is it one for a field containing a line break, because import splits lines first.

## Model

| member | source | states |
|---|---|---|
| Types.KindName | types.ts:2-5 | the enum's text is `"SINGLE"` exactly for the single-choice kind |
| Text.JoinSplit | App.tsx:562 | joining the pieces of `split(',')` with commas gives back the text |
| Text.SplitJoin | App.tsx:521 | splitting a comma-joined non-empty list of comma-free ids gives back the list |
| Text.SplitLines | App.tsx:543 | at least one piece; specified by Text.SplitLinesJoin, Text.SplitLinesJoinCRLF and Text.JoinSplitLines |
| Text.ParseInt | App.tsx:557 | specified by Text.ParseIntText, Text.ParseIntNoDigit, Text.ParseIntEmpty and Text.ParseIntLeadingDigits: reads back the text of every integer, is `NaN` without a digit, and stops at the first non-digit |
| Text.SplitLinesJoin | App.tsx:543 | splitting LF-joined lines without line breaks on `\r?\n` gives back the lines |
| Text.SplitLinesJoinCRLF | App.tsx:543 | splitting CRLF-joined lines without line breaks gives back the lines, with the CR taken as part of the line break |
| Text.JoinSplitLines | App.tsx:543 | without CR, the `\r?\n` pieces have no LF and join back to the text |
| Text.Split | App.tsx:562 | specified by Text.JoinSplit and Text.SplitJoin: the pieces between the commas |
| Text.Join | App.tsx:231 | specified by Text.JoinSplit, Text.SplitJoin and Scoring.KeySameMultiset: the pieces with the separator between them |
| Text.IntText | App.tsx:516 | specified by Text.ParseIntText and RoundTrip.IntTextSafe: `String` of an integer, read back by `parseInt` and never cut by the regex |
| Text.Decimal | App.tsx:516 | the text of a natural number is a non-empty digit string |
| Text.ParseIntText | App.tsx:557 | `parseInt` of the exported chapter text gives back that integer |
| Text.ParseIntNoDigit | App.tsx:557 | a text without a decimal digit parses as `NaN` |
| Text.ParseIntEmpty | App.tsx:557 | `parseInt("")` is `NaN` |
| Text.ParseIntLeadingDigits | App.tsx:557 | a number's text followed by a non-digit, and anything after it, parses as that number |
| Text.DecimalInjective | App.tsx:556 | distinct numbers have distinct texts |
| Sorting.SortStrings | App.tsx:231 | the default sort yields an ordered permutation of its input |
| Sorting.SortedUnique | App.tsx:231 | two ordered lists with the same elements are equal |
| Sorting.SortIgnoresOrder | App.tsx:231 | the sorted copy depends only on the multiset of elements |
| Csv.Quote | App.tsx:525 | specified by Csv.UnquoteQuote and CsvRecord.QuotedBodyEscaped: the field in quotes, each embedded quote doubled |
| Csv.Row | App.tsx:525 | specified by Csv.RowCons, Csv.RowRoundTrip and CsvRecord.ParseRowRoundTrip: the quoted fields joined by commas |
| Csv.Unquote | App.tsx:549 | specified by Csv.UnquoteQuote and Csv.UnquoteCut: one outer quote stripped at each end, then each doubled quote collapsed |
| Csv.Escape | App.tsx:525 | doubling quotes never shortens a field |
| Csv.EscapeAppend | App.tsx:525 | quote doubling distributes over concatenation |
| Csv.CollapseEscape | App.tsx:549 | replacing `""` by `"` undoes the doubling, whatever follows |
| Csv.UnquoteQuote | App.tsx:549 | unquoting an exported field gives back the original string, for every string |
| Csv.PlainRun | App.tsx:548 | the unquoted alternative takes the longest run of characters other than quote, comma and white space |
| Csv.CloseLenFirst | App.tsx:548 | the quoted alternative closes at the first quote followed by white space then a comma or the end, and never crosses a line terminator |
| Csv.CloseLen | App.tsx:548 | specified by Csv.CloseLenFirst: the length of the lazy quoted match `".*?"` with its lookahead |
| Csv.MatchLen | App.tsx:548 | a match is followed by the lookahead; a quoted match ends in a quote; an unquoted match has only plain characters |
| Csv.Tokens | App.tsx:548 | every token the scan returns is a quoted run or a plain run |
| Csv.Fields | App.tsx:549 | one field per token |
| Csv.FirstCut | App.tsx:548 | the first quote inside a field that the regex takes as the field's close, if any |
| Csv.Recovered | App.tsx:549 | the import recovers an exported field up to its first early close, and all of it exactly when there is none |
| Csv.LookaheadEscaped | App.tsx:548 | at the start of a field's escaped text, the lookahead holds exactly when the field starts with white space then a comma |
| Csv.FieldToken | App.tsx:548-549 | the token at an exported field unquotes to the recovered text of the field |
| Csv.SafeFieldTokens | App.tsx:548 | a field without an early close or a line terminator is exactly one token |
| Csv.TokensOfRowFrom | App.tsx:548 | the leading safe fields of a row are its leading tokens |
| Csv.FieldRecovered | App.tsx:548-549 | field k of an exported row imports as its recovered text when the fields before it are safe |
| Csv.RowRoundTrip | App.tsx:548-549 | an exported row whose fields are all safe imports as exactly those fields |
| Json.EscapeJsonChar | App.tsx:520 | an escaped character never holds CR or LF |
| Json.EscapeJsonText | App.tsx:520 | a JSON string body never holds CR or LF |
| Json.Stringify | App.tsx:520 | specified by Json.StringifyNoLineBreak, Json.StringifyEmpty and Json.StringifyQuoteComma |
| Json.StringifyNoLineBreak | App.tsx:520 | the options column has no line break |
| Json.StringifyEmpty | App.tsx:561 | an empty option list is written as the `"[]"` the import falls back to |
| Json.StringifyQuoteComma | App.tsx:520 | the options text of a non-empty list holds a quote followed by a comma |
| Json.StringifyLacks | App.tsx:520 | stringify adds no character at or above U+0080 that the options lack |
| Export.RowFields | App.tsx:515-523 | seven fields; the type column is the kind's name and the options column is the JSON text |
| Export.RowLine | App.tsx:515-525 | specified by Export.DocumentLines, Export.RowLineNoLineBreak and Csv.RowRoundTrip: one question's seven quoted fields joined by commas |
| Export.Lines | App.tsx:525 | the header row, then one row per saved question in collection order |
| Export.Document | App.tsx:525 | specified by Export.ExportLinkDocument and Export.DocumentLines: the byte order mark, then the lines joined by LF |
| Export.ExportLink | App.tsx:513 | an empty collection exports nothing |
| Export.ExportLinkDocument | App.tsx:525 | the link is the data-URI prefix followed by the document, which starts with the byte order mark |
| Export.DocumentLines | App.tsx:525 | splitting the document on `\r?\n` gives the marked header line and then each row line in order |
| Export.RowLineNoLineBreak | App.tsx:515-525 | a question without line breaks in its text fields exports as one line |
| Import.NonBlank | App.tsx:543 | exactly the non-blank lines are kept |
| Import.NonBlankConcat | App.tsx:543 | the filter keeps the order of the lines, working piece by piece |
| Import.NonBlankKeepsAll | App.tsx:543 | lines that are all non-blank are all kept, in order |
| Import.DataLines | App.tsx:543-545 | the data lines are the non-blank lines less the first one, whatever it holds |
| Import.ImportId | App.tsx:556 | specified by Import.ImportIdInjective and Import.DistinctIds: `import-`, the timestamp, `-`, the row index |
| Import.ImportIdInjective | App.tsx:556 | two generated ids are equal only for the same timestamp and row index |
| Import.Chapter | App.tsx:557 | the chapter is the parsed integer when it is one and non-zero, otherwise 1 |
| Import.ChapterFallback | App.tsx:557 | an empty or digit-free chapter field imports as 1; a field starting with a non-zero number imports as that number, whatever follows its digits |
| Import.OrDefault | App.tsx:558 | an empty field takes the default, any other is kept |
| Import.OptionsText | App.tsx:561 | specified by Import.OrDefault and Import.DecodeFields: the options field, or `[]` when it is empty |
| Import.DecodeFields | App.tsx:551-564 | a row is skipped exactly when it has fewer than seven fields and throws exactly when `JSON.parse` fails on its options |
| Import.DecodeRow | App.tsx:548-564 | the same, stated on the tokens of the line |
| Import.ParsedFields | App.tsx:553-564 | a decoded row's id is built from its stamp and index; its chapter is `Chapter` of the first field; its kind is single exactly for `"SINGLE"`; topic, question and explanation are their fields or the fixed defaults when empty; its options are what `JSON.parse` returned; its answers are `split(',')` of the sixth field, which joins back to that field |
| Import.MapLines | App.tsx:546-565 | each data line is decoded with its own index and the clock read for it |
| Import.Collect | App.tsx:565 | specified by Import.CollectFails and Import.CollectSurvivors: drops the skipped rows, keeps the decoded ones in order, and fails when a row throws |
| Import.CollectFails | App.tsx:573-576 | the import throws exactly when some row throws |
| Import.Survivors | App.tsx:565 | the indices of the decoded rows, strictly increasing, with none missing |
| Import.CollectSurvivors | App.tsx:565 | the imported questions are the decoded rows in line order |
| Import.DistinctIds | App.tsx:556 | the imported questions have pairwise distinct ids |
| Import.ImportWith | App.tsx:567-568 | questions are handed over only when there is at least one |
| Import.ImportText | App.tsx:540-576 | specified by Import.ImportOutcome and RoundTrip.AsWrittenRoundTrip: the import as written, reading rows with the regex |
| Import.ImportOutcome | App.tsx:540-576 | the import aborts exactly when a row throws; otherwise it hands over questions exactly when a row survives |
| CsvRecord.QuotedBody | App.tsx:549 | the rest after a quoted field is no longer than the input |
| CsvRecord.ParseRow | App.tsx:548-549 | the corrected reader returns at least one field |
| CsvRecord.QuotedBodyEscaped | App.tsx:525 | the corrected reader takes back an escaped field and stops right after its closing quote |
| CsvRecord.ParseRowRoundTrip | App.tsx:525 | the corrected reader returns exactly the fields of every exported row |
| RoundTrip.DocumentDataLines | App.tsx:543-545 | the data lines of an exported document are its row lines |
| RoundTrip.DecodeExported | App.tsx:553-564 | an exported row rebuilds its question, renamed, when `JSON.parse` inverts `JSON.stringify` on its options |
| RoundTrip.CollectAll | App.tsx:565 | when every row decodes, the import holds all of them in order |
| RoundTrip.ImportEveryLine | App.tsx:543-572 | when every row line decodes to its question, importing the document hands over the renamed collection |
| RoundTrip.IntTextSafe | App.tsx:516 | the chapter column is never cut |
| RoundTrip.KindNameSafe | App.tsx:518 | the type column is never cut |
| RoundTrip.AsWrittenRoundTrip | App.tsx:540-572 | questions without options and without regex-hostile text survive export and import, renamed |
| RoundTrip.OptionsColumnCut | App.tsx:548 | the options column of an exported question with options is read as a proper, non-empty prefix of its JSON |
| RoundTrip.OptionsRowLost | App.tsx:561 | such a row is never decoded |
| RoundTrip.NoSurvivors | App.tsx:565 | no row decodes, so no row survives |
| RoundTrip.ExportImportLosesOptions | App.tsx:540-576 | importing an exported collection of one-line questions that all have options, whose option ids and texts hold no line terminator (LF, CR, U+2028, U+2029), and whose topic and question the regex reads whole, aborts or finds nothing |
| RoundTrip.SampleLost | App.tsx:540-576 | a one-question collection with one option is not imported back |
| RoundTrip.FixedRoundTrip | App.tsx:540-572 | with the corrected reader, and a `JSON.parse` that reads back each question's options, an exported collection of rebuildable questions comes back whole, renamed; rebuildable means on one line, with a non-zero chapter, non-empty topic, question and explanation, and a non-empty comma-free answer list |
| RoundTrip.FixedImportText | App.tsx:540-572 | specified by RoundTrip.FixedRoundTrip and RoundTrip.SampleKept: the import with each row read by the corrected reader |
| RoundTrip.SampleKept | App.tsx:540-572 | with the corrected reader, the sample collection comes back |
| Scoring.AnswerKey | App.tsx:231 | specified by Scoring.KeyIgnoresOrder, Scoring.KeySameMultiset and Scoring.EmptyKey: the sorted copy joined by commas |
| Scoring.HasAnswered | App.tsx:234 | specified by Answering.ToggleAnswered and Scoring.GateOpenUnanswered: an entry exists and is not empty |
| Scoring.CanSubmitAll | App.tsx:332 | specified by Scoring.GateCountsEntries: at least as many answer keys as questions |
| Scoring.KeyIgnoresOrder | App.tsx:231 | answers with the same options in any order compare equal |
| Scoring.KeySameMultiset | App.tsx:231 | for non-empty lists of comma-free ids, the keys are equal exactly when the multisets are |
| Scoring.EmptyKey | App.tsx:444 | the key is empty exactly for `[]` and `[""]` |
| Scoring.Find | App.tsx:229 | the first question with the id, or none exactly when no question has it |
| Scoring.CheckCorrect | App.tsx:228-232 | true only when the answer entry exists and some question has the id |
| Scoring.CheckCorrectMeans | App.tsx:228-232 | for comma-free non-empty lists: correct exactly when the answer is the key up to order |
| Scoring.ScoreFrom | App.tsx:442-445 | the fold adds between 0 and 5 points per question |
| Scoring.Matches | App.tsx:443-444 | specified by Scoring.ExamAgreesWithPractice, Scoring.UnansweredExamQuestion and Scoring.FullMarks: the sorted, comma-joined answer, or of `[]` when there is none, equals the key |
| Scoring.CorrectCount | App.tsx:442-445 | at most one match per question |
| Scoring.ExamScore | App.tsx:442-445 | the score is 5 times the number of matching questions, at most 5 per question |
| Scoring.ScoreFromCount | App.tsx:442-445 | the fold from any start adds 5 per match |
| Scoring.CountAppend | App.tsx:442-445 | matches of two papers add up |
| Scoring.ScoreAppend | App.tsx:442-445 | scores of two papers add up |
| Scoring.FullMarks | App.tsx:442-445 | full marks exactly when every question matches |
| Scoring.CountAll | App.tsx:442-445 | every question matches exactly when the count is the paper's length |
| Scoring.ExamAgreesWithPractice | App.tsx:444 | for an answered question, the exam comparison agrees with `checkCorrect` |
| Scoring.UnansweredExamQuestion | App.tsx:443 | an unanswered exam question matches exactly when its key is `[]` or `[""]`, and `checkCorrect` is false for it |
| Scoring.IdSet | App.tsx:332 | the set of the questions' ids |
| Scoring.IdSetSize | App.tsx:332 | distinct ids give a set of the paper's size |
| Scoring.GateCountsEntries | App.tsx:332 | for answer keys drawn from the paper: the gate opens exactly when every question has an entry |
| Scoring.GateOpenUnanswered | App.tsx:332 | an emptied entry opens the gate although the question is not answered |
| Answering.Without | App.tsx:49 | exactly the other options stay |
| Answering.WithoutConcat | App.tsx:49 | removal distributes over concatenation, so the remaining options keep their order |
| Answering.Toggled | App.tsx:45-53 | single choice gives the option alone; multiple choice appends an unchosen option at the end, and removes every copy of a chosen one, keeping every other option, its count and its order (the result is `Without`) |
| Answering.WithoutDistinct | App.tsx:49 | removing an option keeps an answer free of repeats |
| Answering.ToggleKeepsDistinct | App.tsx:48-52 | a click keeps an answer free of repeats |
| Answering.WithoutAppended | App.tsx:49-51 | removing the option just appended gives the earlier answer back |
| Answering.WithoutMultiset | App.tsx:49 | removal deletes every copy and changes nothing else |
| Answering.ToggleTwiceRestores | App.tsx:48-52 | two clicks on an unchosen option restore the answer |
| Answering.ToggleTwiceSameKey | App.tsx:48-52 | two clicks on a chosen option keep the same options and the same key |
| Answering.DistinctOnce | App.tsx:48-52 | an option occurs once in an answer without repeats |
| Answering.ToggleAnswered | App.tsx:234 | a click leaves the question answered unless it removed the only chosen option, and leaves its entry in place |
| Answering.AnswerSheet.constructor | App.tsx:221-223 | a session starts with no answers and nothing submitted |
| Answering.AnswerSheet.ChooseOption | App.tsx:310-312 | a click is ignored while the answer is shown; otherwise only the question's entry changes, to the toggled answer |
| Answering.AnswerSheet.SubmitOne | App.tsx:236-238 | marks one question submitted, which shows its answer outside batch mode |
| Answering.AnswerSheet.SubmitAll | App.tsx:240-242 | shows every answer in batch mode; nothing shown is hidden again |
| Collections.WithoutId | App.tsx:696 | never longer than the collection; specified by Collections.WithoutIdMembers, Collections.WithoutIdMultiset and Collections.WithoutIdConcat |
| Collections.WithoutIdMembers | App.tsx:696 | exactly the questions with other ids stay |
| Collections.WithoutIdShrinks | App.tsx:696 | removing a present id shortens the collection |
| Collections.WithoutIdAppended | App.tsx:696 | removing the id of the question just appended gives the earlier collection back |
| Collections.WithoutIdMultiset | App.tsx:696 | every copy of a question with the id goes and every other question keeps its count |
| Collections.WithoutIdConcat | App.tsx:696 | the questions that stay keep their order |
| Collections.Toggled | App.tsx:695-696 | a saved id is removed entirely by `WithoutId`, every other question keeping its count and order; otherwise the question itself is appended after the unchanged collection |
| Collections.ToggleTwice | App.tsx:693-698 | two toggles of an unsaved question restore the collection |
| Collections.Texts | App.tsx:703 | exactly the saved question texts |
| Collections.NewItems | App.tsx:704 | exactly the imported questions whose text is not saved; with Collections.NewItemsConcat, in import order with every copy kept |
| Collections.NewItemsConcat | App.tsx:704 | the filter distributes over concatenation, so the new questions keep their import order and their number of copies |
| Collections.Merged | App.tsx:700-707 | specified by Collections.MergeExtends, Collections.NewItemsConcat, Collections.MergeCoversTexts and Collections.MergeIdempotent: the saved questions, then those imported with new text, in import order with every copy kept |
| Collections.MergeExtends | App.tsx:700-707 | the merge keeps every saved question in place and appends only questions with new text |
| Collections.MergeCoversTexts | App.tsx:700-707 | after a merge every imported text is saved |
| Collections.NothingNew | App.tsx:704 | questions whose texts are all saved add nothing |
| Collections.MergeIdempotent | App.tsx:700-707 | importing the same questions twice in a row equals importing them once |
| Collections.Collection.Toggle | App.tsx:693-698 | the collection becomes the toggled list and the star flips |
| Collections.Collection.ImportQuestions | App.tsx:700-707 | the collection becomes the merged list and keeps its old entries as a prefix |

## Left out

- The Gemini service, React rendering, navigation and sidebar, localStorage loading,
  migration and saving: this is UI and persistence around foreign calls. The `Collection` is
  constructed from the saved list as given.
- `FileReader`, `encodeURI`, the download anchor, `alert`, `confirm` and the input reset at
  `App.tsx:577`: browser I/O. `ExportLink` stops at the text handed to `encodeURI`, and the
  round-trip lemmas take the downloaded file's text to be exactly `Document(qs)`. The
  browser's decoding of the `data:` link is not modelled: `encodeURI` leaves `#` unescaped,
  so a field containing `#` may cut the downloaded file short at that character. The model
  assumes the file's byte order mark reaches the import as the first character of the text.
  If `readAsText` strips it instead, nothing changes: it belongs to the header line, which the
  import drops whatever it holds.
- `Date.now()` at `App.tsx:556` is a parameter `clock` that gives the reading for each row
  index. `Math.random` shuffles, the exam timer and `Promise.all` generation are left out.
- `JSON.parse` at `App.tsx:561` is a parameter `parse`, a function that may fail.
  `RejectsPrefixes` states the one fact of it the lost-options result needs: it throws on
  every proper prefix of a `JSON.stringify` output.
- The `TCCP_CHAPTERS` table in `types.ts` is static data.
- Import.Chapter: the chapter is an unbounded integer. `parseInt` reads the leading sign and
  digits exactly, where JavaScript rounds a long digit run to a double, and a `chapter` that
  is not an integer is not modelled.
- Sorting.StrLe: compares characters by Unicode code point. JavaScript's default sort
  compares UTF-16 code units, which orders characters above U+FFFF differently.
- Csv.Tokens: `.` in the quoted alternative stops at the four JavaScript line terminators,
  as in the regex's definition. After `split(/\r?\n/)` a line holds no LF, but it may still
  hold a lone CR, U+2028 or U+2029, and the scan treats each as the regex does.
- The exam's `userAnswers` map (`App.tsx:386`, `App.tsx:492`) is the same map update as
  `AnswerSheet.ChooseOption` with the answer never shown, and is not a separate class.
- RoundTrip.FixedRoundTrip: needs each question to be on one line, with a non-zero chapter,
  non-empty topic, question and explanation, and a non-empty comma-free answer list, because
  the import's defaults and `split(',')` are kept as they are.

## Findings

| source | as written | input that shows it | evidently intended | confidence | as-written member | corrected member |
|---|---|---|---|---|---|---|
| App.tsx:548-549 | the lazy quoted alternative `".*?"` stops at the first quote followed by a comma, which every exported options column holds after the first option's id; `JSON.parse` of the cut text throws and the whole import is abandoned | `RoundTrip.Sample`: one single-choice question with the one option `{id: "A", text: "x"}` | reading a field up to its unescaped closing quote, as in RFC 4180 section 2, so that an exported collection imports back | not executed | RoundTrip.ExportImportLosesOptions | RoundTrip.FixedRoundTrip |
