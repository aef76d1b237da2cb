# pdf-crawler: record extraction and outcome ledger

The crawler walks a directory of PDF files. For each file it derives a
record: the person's name, taken from the file name `<date>_<first>_<last>.pdf`,
and the date of receipt, taken from the `Eingang:` line of the first page.
It checks the record for blanks and for a name that is already known, and
merges accepted records into a result map from name to date. It also keeps a
ledger of which files were selected, not read, read, read with errors and
read without errors, and how often each name was found more than once.

The model:

- `wrappers.dfy` (module `Wrappers`) holds `Option`, `Result` and `Outcome`.
- `java_lib.dfy` (module `JavaLib`) writes out the parts of `java.lang.String`
  and `java.util.Map` the scanner depends on:
  - `trim()`, which strips characters up to U+0020;
  - `isBlank()`, which uses `Character.isWhitespace`;
  - literal `replace`;
  - `split` with the trailing empty pieces dropped;
  - `split("\\r?\\n")`;
  - `putAll`.
- `exceptions.dfy` (module `Exceptions`) has one `Failure` value per
  exception class that a visit can end in.
- `csv_error_status.dfy` (module `Csv`) models the ledger `CSVErrorStatus`.
  Its static fields become the fields of one `CsvErrorStatus` object that is
  handed to every operation. `Status` is the value of those fields, and each
  method is stated as a transition on it.
- `helper.dfy` (module `Helper`) models `checkDataCorrectness` and
  `checkDataUniqueness`. A `HashMap` is given as its entries in iteration
  order.
- `pdf_scanner.dfy` (module `PdfScanner`) covers four things:
  - the name from the file name;
  - the date line, with the print-stamp regular expression written as a
    string function;
  - `extractFromFile`;
  - the body of `visitFile` (`VisitFile`) and the walk (`ScanFile`).

  Each method is proved equal to a function: `ExtractRecord`, `Step` or `Run`.
- `scan_properties.dfy` (module `ScanProperties`) holds what one visit and a
  whole walk do to the result map and the ledger.

The PDF library is replaced by what the scanner observes of it:

- loading either fails with an `IOException` or gives a document;
- the document says whether it is encrypted;
- reading its first page gives either the text or an `IOException`.

The directory walk is replaced by the sequence of files it visits, and the
result map `pdfData` is passed in and returned as a value.

Three behaviours of the code are easy to miss when reading it:

- **Last marker line wins.** The date comes from the *last* line starting
  with `Eingang:`, because the `forEach` overwrites it on every match. See
  `LastDateIsLastMarkedLine`.
- **A blank date is reported as a missing name.** The first test is "name
  or date blank" and throws the "name" error, so the following "date" branch
  is dead. See `DateErrorUnreachable` and `BlankMarkedLineFails`.
- **The ledger sets are not always disjoint.** Disjointness is guaranteed
  only when every path is visited at most once between two resets (see
  `RunDisjoint`). A path visited twice with the same outcome both times
  keeps the sets disjoint; a second visit that ends in a different outcome
  breaks it. The counterexamples are `SameFileTwice` (two `scanFile` calls without a
  reset reach the same file, because the input names it twice or names a
  directory and a file inside it) and `SamePathTwice` (a file that changes
  between two visits). One `walkFileTree` call visits each path once.

## Model

| member | source | states |
|---|---|---|
| Csv.CsvErrorStatus.constructor | src/main/java/pdfcrawler/adesso/de/csv/CSVErrorStatus.java:9-19 | the five sets and the duplicate map start empty, and both ledger invariants hold |
| Csv.CsvErrorStatus.AddReadSuccess | src/main/java/pdfcrawler/adesso/de/csv/CSVErrorStatus.java:21-24 | the document joins readDocuments and documentsWithoutErrors and nothing else changes; both invariants (read = with ∪ without, classified ⊆ selected) are kept when the document was selected first |
| Csv.CsvErrorStatus.AddReadError | src/main/java/pdfcrawler/adesso/de/csv/CSVErrorStatus.java:26-29 | the document joins readDocuments and documentsWithErrors and nothing else changes; both invariants are kept when the document was selected first |
| Csv.CsvErrorStatus.ResetCounters | src/main/java/pdfcrawler/adesso/de/csv/CSVErrorStatus.java:31-37 | the five sets are emptied, duplicateData is kept, and the invariant holds afterwards whatever the state before |
| Csv.CsvErrorStatus.AddDuplicateData | src/main/java/pdfcrawler/adesso/de/csv/CSVErrorStatus.java:39-41 | merge(name, 1, Integer::sum): the name's count becomes 1 or goes up by one; the sets are untouched |
| Csv.WithSelected | src/main/java/pdfcrawler/adesso/de/PdfScanner.java:58 | the state after selectedDocuments.add (no contract of its own; AddsKeepConsistent and SettleOutcome state what it does) |
| Csv.WithNotRead | src/main/java/pdfcrawler/adesso/de/PdfScanner.java:79 | the state after notReadDocuments.add (no contract of its own; AddsKeepConsistent and SettleOutcome state what it does) |
| Csv.WithReadSuccess | src/main/java/pdfcrawler/adesso/de/csv/CSVErrorStatus.java:21-24 | the state after addReadSuccess (no contract of its own; AddsKeepConsistent and CsvErrorStatus.AddReadSuccess state what it does) |
| Csv.WithReadError | src/main/java/pdfcrawler/adesso/de/csv/CSVErrorStatus.java:26-29 | the state after addReadError (no contract of its own; AddsKeepConsistent and CsvErrorStatus.AddReadError state what it does) |
| Csv.Cleared | src/main/java/pdfcrawler/adesso/de/csv/CSVErrorStatus.java:31-37 | the state after resetCounters (no contract of its own; ClearedIsConsistent and ClearedIdempotent state what it does) |
| Csv.WithDuplicate | src/main/java/pdfcrawler/adesso/de/csv/CSVErrorStatus.java:39-41 | the state after addDuplicateData, merge(name, 1, Integer::sum) (no contract of its own; WithDuplicateCounts states what it does) |
| Csv.AddsKeepConsistent | src/main/java/pdfcrawler/adesso/de/csv/CSVErrorStatus.java:21-29 | every ledger mutation keeps readDocuments equal to the union of the two read sets |
| Csv.ClearedIsConsistent | src/main/java/pdfcrawler/adesso/de/csv/CSVErrorStatus.java:31-37 | after a reset all five sets are empty, both invariants hold, and the duplicate counts are those of before |
| Csv.ClearedIdempotent | src/main/java/pdfcrawler/adesso/de/csv/CSVErrorStatus.java:31-37 | resetting twice is resetting once |
| Csv.WithDuplicateCounts | src/main/java/pdfcrawler/adesso/de/csv/CSVErrorStatus.java:39-41 | a collision raises its own name's count by exactly one, leaves other names' counts alone, and changes nothing but the duplicate map |
| Helper.CheckDataCorrectness | src/main/java/pdfcrawler/adesso/de/utilities/Helper.java:24-39 | passes exactly when the map is non-empty and its first key and first value are not blank; empty gives the "no data" error, otherwise a failure is the "blank data" error |
| Helper.UniquenessVerdict | src/main/java/pdfcrawler/adesso/de/utilities/Helper.java:12-21 | fails exactly when the map is non-empty and its first name is already a key of the result map, with the duplicate error naming it |
| Helper.CheckDataUniqueness | src/main/java/pdfcrawler/adesso/de/utilities/Helper.java:12-21 | returns the verdict above; on a collision the name's duplicate count is bumped, and otherwise the ledger is unchanged |
| Helper.UniqueMergeKeepsExisting | src/main/java/pdfcrawler/adesso/de/PdfScanner.java:68-70 | after a passed uniqueness check, putAll of the one-entry record adds its new name with its date and keeps every existing entry |
| JavaLib.IsWhitespace | src/main/java/pdfcrawler/adesso/de/PdfScanner.java:119 | Character.isWhitespace: the space and line separators except the non-breaking ones, and the controls U+0009-U+000D and U+001C-U+001F (a predicate; IsBlank builds on it) |
| JavaLib.IsBlank | src/main/java/pdfcrawler/adesso/de/utilities/Helper.java:29-30 | String.isBlank via Character.isWhitespace (a predicate; Helper.CheckDataCorrectness and RecordFrom state what depends on it) |
| JavaLib.TrimLead | src/main/java/pdfcrawler/adesso/de/PdfScanner.java:151 | the first loop of trim() stops at the first character above U+0020 or at the end, and skips only characters up to U+0020 |
| JavaLib.TrimTail | src/main/java/pdfcrawler/adesso/de/PdfScanner.java:151 | the second loop stops after the last character above U+0020 or at the start index, and cuts only characters up to U+0020 |
| JavaLib.Trim | src/main/java/pdfcrawler/adesso/de/PdfScanner.java:151 | the result of trim() neither starts nor ends with a character up to U+0020 |
| JavaLib.TrimIsInfix | src/main/java/pdfcrawler/adesso/de/PdfScanner.java:151 | trim() keeps the infix between its two loop indices, and everything cut off on either side is a character up to U+0020 |
| JavaLib.TrimUntrimmed | src/main/java/pdfcrawler/adesso/de/PdfScanner.java:151 | text whose ends are not trimmable is left unchanged by trim() |
| JavaLib.TrimLeadingSpace | src/main/java/pdfcrawler/adesso/de/PdfScanner.java:151 | trim() of a space followed by untrimmed text gives that text |
| JavaLib.StartsWith | src/main/java/pdfcrawler/adesso/de/PdfScanner.java:110 | String.startsWith: the prefix is as long as or shorter than the text and equals its first characters (a predicate; LastDateIsLastMarkedLine and LastDateWithoutMarker state what depends on it) |
| JavaLib.RemoveAll | src/main/java/pdfcrawler/adesso/de/PdfScanner.java:136 | removing every occurrence never makes the text longer |
| JavaLib.RemoveAllPrefix | src/main/java/pdfcrawler/adesso/de/PdfScanner.java:151 | an occurrence at the front is removed and the scan continues after it |
| JavaLib.RemoveAllAbsent | src/main/java/pdfcrawler/adesso/de/PdfScanner.java:136 | without an occurrence of the pattern, removal changes nothing |
| JavaLib.RemoveAllKeepsAbsent | src/main/java/pdfcrawler/adesso/de/PdfScanner.java:136 | removal only deletes: a character absent from the text is absent from the result |
| JavaLib.RemoveAllAppended | src/main/java/pdfcrawler/adesso/de/PdfScanner.java:136 | for a pattern whose first character does not recur in it, removing it from stem + pattern gives back a stem that did not contain it |
| JavaLib.SplitOn | src/main/java/pdfcrawler/adesso/de/PdfScanner.java:137 | at least one piece, no piece holds the separator, and a text without the separator is one piece |
| JavaLib.SplitOnHead | src/main/java/pdfcrawler/adesso/de/PdfScanner.java:137 | a separator-free head stays glued to the first piece of the rest |
| JavaLib.SplitOnJoin | src/main/java/pdfcrawler/adesso/de/PdfScanner.java:137 | splitting the separator-joined pieces gives the pieces back |
| JavaLib.JoinSplitOn | src/main/java/pdfcrawler/adesso/de/PdfScanner.java:137 | joining the pieces of a split gives the text back |
| JavaLib.DropTrailingEmpty | src/main/java/pdfcrawler/adesso/de/PdfScanner.java:137 | keeps a prefix of the pieces whose last piece is non-empty, and everything dropped is empty |
| JavaLib.Split | src/main/java/pdfcrawler/adesso/de/PdfScanner.java:137 | split("_"): no piece holds the separator, a text without it is the one piece [s], and otherwise the last piece, if any, is non-empty |
| JavaLib.SplitJoin | src/main/java/pdfcrawler/adesso/de/PdfScanner.java:137 | split("_") of '_'-free pieces joined by '_', the last one non-empty unless it is alone, gives the pieces back |
| JavaLib.DropCarriageReturn | src/main/java/pdfcrawler/adesso/de/PdfScanner.java:106 | a line ending in '\r' loses exactly that one '\r', and any other line is kept as it is |
| JavaLib.DropCarriageReturns | src/main/java/pdfcrawler/adesso/de/PdfScanner.java:106 | keeps the number of lines and the last line, and drops one final '\r' from each other line, the one that belonged to its "\r\n" separator |
| JavaLib.SplitLines | src/main/java/pdfcrawler/adesso/de/PdfScanner.java:106 | no line holds a line feed; SplitLinesJoin and SplitLinesCrLf give the round trips for "\n" and for "\r\n" |
| JavaLib.SplitLinesJoin | src/main/java/pdfcrawler/adesso/de/PdfScanner.java:106 | lines without '\n', without a final '\r' and with a non-empty last line come back from split("\\r?\\n") as they were joined |
| JavaLib.WithCarriageReturns | src/main/java/pdfcrawler/adesso/de/PdfScanner.java:106 | the lines as a "\r\n"-separated text holds them: every line but the last is followed by a '\r' |
| JavaLib.CarriageReturnsOnLines | src/main/java/pdfcrawler/adesso/de/PdfScanner.java:106 | adding those '\r' puts no line feed into a line |
| JavaLib.DropAddedCarriageReturn | src/main/java/pdfcrawler/adesso/de/PdfScanner.java:106 | the '\r' before a line feed is the one taken off again |
| JavaLib.CarriageReturnsDropped | src/main/java/pdfcrawler/adesso/de/PdfScanner.java:106 | taking the separators' '\r' off the "\r\n"-separated lines gives the lines back |
| JavaLib.SplitLinesCrLf | src/main/java/pdfcrawler/adesso/de/PdfScanner.java:106 | lines without '\n', the last one non-empty, separated by "\r\n" come back from split("\\r?\\n"), even lines that themselves end in '\r' |
| JavaLib.PutAll | src/main/java/pdfcrawler/adesso/de/PdfScanner.java:70 | putAll keeps every old key, adds every entry's key and nothing else, gives each put key the value of its last entry, and leaves the values of keys not among the entries alone |
| PdfScanner.NameFromStem | src/main/java/pdfcrawler/adesso/de/PdfScanner.java:137-147 | split("_"), then the last two pieces joined by a space, or "" with fewer than two pieces (no contract of its own; NameFromParts, NameWithoutSeparator and SeparatorOnlyExample state what it does) |
| PdfScanner.ExtractNameFromFileName | src/main/java/pdfcrawler/adesso/de/PdfScanner.java:135-148 | the name holds no '_', and it is "" or two pieces joined by a space |
| PdfScanner.NameFromParts | src/main/java/pdfcrawler/adesso/de/PdfScanner.java:137-147 | a stem built from '_'-free pieces, the last one non-empty, names the person after its last two pieces joined by a space |
| PdfScanner.FileSuffixUnique | src/main/java/pdfcrawler/adesso/de/PdfScanner.java:31 | ".pdf" cannot overlap itself |
| PdfScanner.SuffixRemoved | src/main/java/pdfcrawler/adesso/de/PdfScanner.java:136 | removing ".pdf" from a stem without one plus a final ".pdf" gives the stem |
| PdfScanner.NameFromFileNameParts | src/main/java/pdfcrawler/adesso/de/PdfScanner.java:135-148 | the same for the whole file name: pieces joined by '_', then ".pdf" |
| PdfScanner.NameWithoutSeparator | src/main/java/pdfcrawler/adesso/de/PdfScanner.java:141-146 | a stem without '_' is one piece, so it names nobody ("") |
| PdfScanner.AbsentHead | src/main/java/pdfcrawler/adesso/de/PdfScanner.java:136 | a text without the pattern's first character does not contain the pattern |
| PdfScanner.DatedFileName | src/main/java/pdfcrawler/adesso/de/PdfScanner.java:135-148 | "<date>_<first>_<last>.pdf", with '_'-free parts, a non-empty last part and no ".pdf" before the final one (dotted dates such as "01.02.2023" included), names "<first> <last>"; NameFromFileNameParts is the general case |
| PdfScanner.NameExample | src/main/java/pdfcrawler/adesso/de/PdfScanner.java:135-148 | "2023_Max_Mey.pdf" names "Max Mey" |
| PdfScanner.UndatedFileName | src/main/java/pdfcrawler/adesso/de/PdfScanner.java:141-147 | every file name without '_' ("report.pdf", "my.report.pdf", "notes.txt") gives the empty name |
| PdfScanner.SeparatorOnlyExample | src/main/java/pdfcrawler/adesso/de/PdfScanner.java:137-146 | "_" splits into no pieces at all, so it names nobody |
| PdfScanner.StampHead | src/main/java/pdfcrawler/adesso/de/PdfScanner.java:152 | a match of the fixed part of the print-stamp pattern starts with a space, is at least 16 characters long and lies within the text |
| PdfScanner.StampHeadLayouts | src/main/java/pdfcrawler/adesso/de/PdfScanner.java:152 | the pattern matches exactly where one of the four one- or two-digit layouts fits, and the match is as long as that layout |
| PdfScanner.ClockFitsMatches | src/main/java/pdfcrawler/adesso/de/PdfScanner.java:152 | whichever of the four one- or two-digit layouts fits, the pattern matches |
| PdfScanner.StampMatches | src/main/java/pdfcrawler/adesso/de/PdfScanner.java:152 | " H:MM Uhr (Druck:" followed by anything matches the pattern for one- or two-digit hours and minutes |
| PdfScanner.LineEnd | src/main/java/pdfcrawler/adesso/de/PdfScanner.java:152 | ".*" stops at the first line terminator or at the end |
| PdfScanner.CutPrintStamps | src/main/java/pdfcrawler/adesso/de/PdfScanner.java:152 | removing the matches never makes the text longer |
| PdfScanner.StampFreeUnchanged | src/main/java/pdfcrawler/adesso/de/PdfScanner.java:152 | text without a print stamp is left as it is |
| PdfScanner.CutAtFirstStamp | src/main/java/pdfcrawler/adesso/de/PdfScanner.java:152 | on one line, everything from the first print stamp to the end is cut and the text before it is kept |
| PdfScanner.OnOneLineAppend | src/main/java/pdfcrawler/adesso/de/PdfScanner.java:152 | two texts without line terminators concatenate to one without |
| PdfScanner.DigitsOnOneLine | src/main/java/pdfcrawler/adesso/de/PdfScanner.java:152 | digits are neither line terminators nor the marker's first letter |
| PdfScanner.StampOnOneLine | src/main/java/pdfcrawler/adesso/de/PdfScanner.java:152 | a print stamp with a one-line tail contains no line terminator |
| PdfScanner.StampLast | src/main/java/pdfcrawler/adesso/de/PdfScanner.java:152 | a print stamp ends with the last character of its tail, or with the ':' of "(Druck:" |
| PdfScanner.ExtractLineData | src/main/java/pdfcrawler/adesso/de/PdfScanner.java:150-153 | the date taken from a line is never longer than the line; StampedLineData and MarkedLineData say what it is |
| PdfScanner.StampedTextHasNoKey | src/main/java/pdfcrawler/adesso/de/PdfScanner.java:151 | the date and stamp after the marker hold no second marker |
| PdfScanner.StampedTextCut | src/main/java/pdfcrawler/adesso/de/PdfScanner.java:152 | in date + stamp the first stamp starts right after the date, so the cut leaves the date |
| PdfScanner.MarkedLineData | src/main/java/pdfcrawler/adesso/de/PdfScanner.java:150-153 | marker + " " + text with untrimmed ends and no second marker leaves only the print-stamp cut of the text |
| PdfScanner.StampedLineData | src/main/java/pdfcrawler/adesso/de/PdfScanner.java:150-153 | "Eingang: <date> H:MM Uhr (Druck:<tail>" yields exactly <date>, for a one-word printable date, a one-line tail without trimmable end, and no second "Eingang:" after the key (an 'E' in the tail is allowed) |
| PdfScanner.LineDataExample | src/main/java/pdfcrawler/adesso/de/PdfScanner.java:150-153 | "Eingang: 01.02.2023 9:30 Uhr (Druck: xyz)", written as its pieces, yields "01.02.2023" |
| PdfScanner.LineDataExampleText | src/main/java/pdfcrawler/adesso/de/PdfScanner.java:29 | those pieces spell the line out |
| PdfScanner.LastDate | src/main/java/pdfcrawler/adesso/de/PdfScanner.java:107-113 | the date the forEach ends with is "" or the line data of some line that starts with "Eingang:" |
| PdfScanner.LastDateIsLastMarkedLine | src/main/java/pdfcrawler/adesso/de/PdfScanner.java:109-113 | the last line starting with "Eingang:" decides the date, and earlier ones are overwritten |
| PdfScanner.LastDateWithoutMarker | src/main/java/pdfcrawler/adesso/de/PdfScanner.java:108-113 | without a marked line the date stays "" |
| PdfScanner.RecordFrom | src/main/java/pdfcrawler/adesso/de/PdfScanner.java:119-126 | the blank check passes exactly when neither name nor date is blank, the record is then the single pair, and every failure is the "name" error |
| PdfScanner.ExtractRecord | src/main/java/pdfcrawler/adesso/de/PdfScanner.java:99-133 | extractFromFile only ends in an IOException or an ExtractDataException |
| PdfScanner.ExtractFromFile | src/main/java/pdfcrawler/adesso/de/PdfScanner.java:99-133 | the loop over the lines computes the last marked line's date, and the result is ExtractRecord of the document and the file name |
| PdfScanner.ExtractRecordSuccess | src/main/java/pdfcrawler/adesso/de/PdfScanner.java:102-128 | extraction succeeds exactly when the document is not encrypted, its text can be read, and neither name nor date is blank; the record is then the single pair name → date; a readable document with a blank name or date fails with the "name" error |
| PdfScanner.UnnamedFileFails | src/main/java/pdfcrawler/adesso/de/PdfScanner.java:115-120 | a readable page under a file name without '_' ("report.pdf") fails with the "name" error, whatever the page says |
| PdfScanner.BlankMarkedLineFails | src/main/java/pdfcrawler/adesso/de/PdfScanner.java:109-120 | a marker line followed only by spaces ("Eingang:   ") gives the date "", so the file fails with the "name" error |
| PdfScanner.DateErrorUnreachable | src/main/java/pdfcrawler/adesso/de/PdfScanner.java:119-123 | the "date could not be extracted" error is never raised |
| PdfScanner.EncryptedReadsNoText | src/main/java/pdfcrawler/adesso/de/PdfScanner.java:102-132 | an encrypted document fails with the encryption error whatever reading its page would give |
| PdfScanner.NoMarkerLineFails | src/main/java/pdfcrawler/adesso/de/PdfScanner.java:106-120 | a page without an "Eingang:" line fails with the "name" error even when the file name is fine |
| PdfScanner.ExtractedRecordIsCorrect | src/main/java/pdfcrawler/adesso/de/PdfScanner.java:65-67 | every record extraction produces is one entry and passes checkDataCorrectness |
| PdfScanner.Judge | src/main/java/pdfcrawler/adesso/de/PdfScanner.java:60-89 | which handler a visit ends in; a rejection is never an IOException, which is not-read instead |
| PdfScanner.Settle | src/main/java/pdfcrawler/adesso/de/PdfScanner.java:58-89 | the bookkeeping for a verdict (no contract of its own; SettleOutcome, StepResults and StepDuplicates state what it does) |
| PdfScanner.Step | src/main/java/pdfcrawler/adesso/de/PdfScanner.java:56-92 | one visit (no contract of its own; StepOutcome, StepResults, StepDuplicates and StepKeepsInvariant state what it does, and VisitFile is proved equal to it) |
| PdfScanner.Run | src/main/java/pdfcrawler/adesso/de/PdfScanner.java:54-93 | the visits of a walk in order (no contract of its own; RunAppend, RunGrows, RunSelected, RunKeepsInvariant and RunDisjoint state what it does, and ScanFile is proved equal to it) |
| PdfScanner.VisitFile | src/main/java/pdfcrawler/adesso/de/PdfScanner.java:56-92 | the visit's new map and ledger are those of Step: select, then not-read, read-error (counting a duplicate first) or merge and read-success; both ledger invariants are kept |
| PdfScanner.ScanFile | src/main/java/pdfcrawler/adesso/de/PdfScanner.java:51-97 | visiting the files in order gives the map and ledger of Run, and both ledger invariants are kept |
| ScanProperties.JudgeCases | src/main/java/pdfcrawler/adesso/de/PdfScanner.java:60-89 | a file is not read exactly when loading or reading its page fails; it is accepted exactly when its record can be extracted and its name is new; a duplicate is an extracted record whose name is already known |
| ScanProperties.SettleOutcome | src/main/java/pdfcrawler/adesso/de/PdfScanner.java:58-89 | the bookkeeping selects the path and adds it to exactly the sets the verdict names |
| ScanProperties.StepOutcome | src/main/java/pdfcrawler/adesso/de/PdfScanner.java:58-89 | the same for a visit, with the verdict Judge gives |
| ScanProperties.StepResults | src/main/java/pdfcrawler/adesso/de/PdfScanner.java:68-70 | the map changes only when the file is accepted, and then gains exactly its new name with its date |
| ScanProperties.StepDuplicates | src/main/java/pdfcrawler/adesso/de/utilities/Helper.java:17-19 | a visit raises a name's duplicate count by one exactly when it is rejected as a duplicate of that name |
| ScanProperties.StepKeepsInvariant | src/main/java/pdfcrawler/adesso/de/PdfScanner.java:56-92 | a visit keeps read = with ∪ without and read ∪ notRead ⊆ selected |
| ScanProperties.StepKeepsDisjoint | src/main/java/pdfcrawler/adesso/de/PdfScanner.java:56-92 | visiting a path that was not yet selected keeps the outcome sets disjoint |
| ScanProperties.RunAppend | src/main/java/pdfcrawler/adesso/de/PdfScanner.java:54-93 | walking a and then b is walking a + b |
| ScanProperties.RunGrows | src/main/java/pdfcrawler/adesso/de/PdfScanner.java:54-93 | a walk only adds: every set grows, every name keeps its first date, and no duplicate count goes down |
| ScanProperties.RunSelected | src/main/java/pdfcrawler/adesso/de/PdfScanner.java:58 | a walk selects exactly the paths of its files |
| ScanProperties.RunClassifiesEveryFile | src/main/java/pdfcrawler/adesso/de/PdfScanner.java:56-91 | every visited file ends up read or not read, and the walk continues after every outcome |
| ScanProperties.RunKeepsInvariant | src/main/java/pdfcrawler/adesso/de/PdfScanner.java:54-93 | any walk keeps both ledger invariants |
| ScanProperties.RunDisjoint | src/main/java/pdfcrawler/adesso/de/PdfScanner.java:54-93 | a walk over distinct, not yet selected paths leaves every document in at most one outcome set |
| ScanProperties.RunPair | src/main/java/pdfcrawler/adesso/de/PdfScanner.java:54-93 | a walk over two files is two visits in order |
| ScanProperties.DuplicatePair | src/main/java/pdfcrawler/adesso/de/PdfScanner.java:65-86 | of two documents with the same name, the first is read without errors and its date is the one kept; the second is read with an error, and the name's count goes up by one |
| ScanProperties.SamePathTwice | src/main/java/pdfcrawler/adesso/de/PdfScanner.java:58-86 | without a reset, a path that is first rejected and then accepted (the file changed between visits) ends up in both documentsWithErrors and documentsWithoutErrors |
| ScanProperties.SameFileTwice | src/main/java/pdfcrawler/adesso/de/PdfScanner.java:54-93 | two scanFile calls without a reset that both reach one accepted file (the input names it twice, or names a directory and a file inside it) reject it the second time as a duplicate of itself: it ends up both with and without errors, and its name's count goes up by one |

## Left out

- The PDF library is not modelled. `PDDocument.load`, `getPage(0)`, the one-page copy `firstPageDoc` and `PDFTextStripper.getText` become the `LoadOutcome`, `Document` and `PageText` values of a file.
- `getPage(0)` on a document without pages throws an unchecked exception. That exception is not caught and would end the walk; the model assumes every loaded document has a first page.
- The constructor's `PDFTextStripper` might stay null. A null stripper would make `getText` throw a `NullPointerException`; the model assumes the stripper exists.
- `isEncrypted()` is asked of the fresh one-page copy, not of the loaded file. Whether that copy can report encryption is up to the PDF library; the model takes the flag as given.
- Closing the document in the try-with-resources can throw an `IOException` after a success has been recorded. The model does not include that late IOException, which would also add the path to notReadDocuments.
- An `IOException` from `Files.walkFileTree` itself is not modelled (PdfScanner.java:94-96): the walk is any sequence of files.
- PdfScanner.VisitFile: the `ErroneousExtractedDataException` handler after `checkDataCorrectness` (PdfScanner.java:67, 85-86) is a dead branch. Every record extraction produces passes that check (`ExtractedRecordIsCorrect`), so the branch holds `assert false` instead of the handler's `addReadError`.
- Logging, the printed messages and the text of the exception messages are not modelled. Only which exception is raised is kept.
- Helper.CheckDataCorrectness: the file-path parameter is left out because it is only used in the messages.
- The `null` checks of `checkDataUniqueness` are left out: Dafny values are never null, and the result map holds no null values, so `from.get(name) != null` is membership.
- `replaceAll` uses its key as a regular expression. The model removes it literally, which agrees for "Eingang:" because it has no special characters.
- Csv.CsvErrorStatus.AddDuplicateData: counts are unbounded `nat`. The model does not include `Integer` wrap-around after 2^31 - 1 collisions.
- Concurrency is not modelled. The ledger's static fields are one object that the visits update one after the other.
- Strings are sequences of Unicode scalar values. UTF-16 surrogate pairs are not modelled.
- The GUI (`FrameFactory`) and the CSV output are not part of this model.
