# Game Translation Manager: the CSV/record conversion core in Dafny

The Game Translation Manager is a browser page that moves localized game text between a
spreadsheet (CSV, one row per string key and one column per language) and the game's
string-resource JSON document. The page keeps the current strings in
`translationData.stringresources.strings.string`: a list of records, each an `id` plus at
most one text per supported language (English, German, Spanish, French, Italian, Brazilian
Portuguese, Russian); a language may be absent.

This project models the conversion core of `script.js` and proves properties of it:

- `Languages`: the constant tables (`supportedLanguages`, `csvColumnMap`, `csvLanguageOrder`).
- `Records`: a record, and the JavaScript truthiness of `str[lang]` ("present and non-empty").
- `Text`: the parts of the JavaScript runtime the core relies on. These are `trim`, including
  its exact whitespace set, `split` on one character, `includes`, and the decimal rendering of
  a line number.
- `CsvLine`: `parseCSVLine`. This is a method with a loop, proved equal to a
  quote-state machine `Tokenize`.
- `CsvImport`: `parseCSVData`. It has a method per loop, each proved equal to a functional
  specification: the header map `MapLanguageColumns` to `LanguageColumns`, the row loop
  `ParseRows` to `ParsedRecords`, the record builder `BuildRecord` to `RecordOf`, and the
  whole import `ParseCsvData` to `ParseCsv`.
- `CsvExport`: the text written by `exportCSV`, and what the import makes of it.
- `Stats`: the counts of `updateStats`, the language set, and the canonical-order filter of
  `updateLanguageList`.
- `Store`: a class holding the store. Its methods are:
  - `ImportCsv`, the final assignment of `parseCSVData`;
  - `Clear`, for `clearData`;
  - `ExportCsv`, the export loop;
  - `Statistics` and `LanguageList`, the counting loops.
- `JsonShape`: the shape check of the JSON import, over an abstract JSON tree.

Four behaviours of the code shape what the model proves:

- **Export then import.** Re-importing an export does not give the records back. The exported
  header is written unquoted, and its identifier title `CONTEXT – PLEASE, LOOK HERE FOR
  SPECIFICATIONS` contains a comma. Read back, the header has nine fields rather than eight.
  Each language's column is then read from the next language's cell, and Russian is lost.
  `CsvExport.ExportHeaderFields`, `CsvExport.ExportedColumns`, `CsvExport.ReimportedRecord`
  and `CsvExport.ExportThenImport` state this. Only the per-field escaping round trip holds
  (`CsvLine.FieldRoundTrip`).
- **Quotes in identifiers.** The identifier cell is wrapped in quotes but not escaped, so a
  quote inside an identifier changes how the tokenizer reads the line. For an identifier
  `x"y` with exactly one quote, where `y` is non-empty and holds no comma, and values that
  hold no quote or comma, the whole line is read back as one field, and the record loses
  every translation (`CsvExport.QuotedIdOneField`, `CsvExport.QuotedIdSwallowsRow`).
  Identifiers with other quote patterns read back in other ways, which the model does not
  state.
  An import can produce such identifiers: the cell `"a""b"` is read as `a"b`.
- **Identifiers are not unique.** The import never compares identifiers. Two lines with the
  same trimmed identifier cell give the same identifier. So does a line whose cell is
  literally `translation_5` beside line 5 with an empty cell (`CsvImport.MadeUpIdCollides`).
- **JSON shape check.** The JSON import checks only that `stringresources.strings.string`
  leads through objects to a truthy value. It does not check for an array, so a non-empty
  string, a non-zero number or `true` there is accepted (`JsonShape.LeafOnlyTruthy`).

## Model

| member | source | states |
|---|---|---|
| Languages.HeaderLanguageMeaning | script.js:21-29 | the column map sends a label to a language exactly when the label is that language's column label |
| Languages.ColumnLabelPlain | script.js:21-29 | every column label is non-empty and free of quotes, commas, line breaks and surrounding blanks |
| Languages.Position | script.js:32 | every language has a place in the canonical order, and the order holds it there |
| Languages.LanguageOrderComplete | script.js:10-32 | the canonical order lists each of the seven supported languages exactly once |
| Records.ExportValue | script.js:281 | the exported value is empty exactly when the language is not filled in the record |
| Text.TrimCut | script.js:74 | `trim` cuts its result out of the input at some offset, with only whitespace before and after it |
| Text.TrimEnds | script.js:74 | `trim` leaves no whitespace at either end of its result |
| Text.TrimSlice | script.js:74 | a trimmed string is a slice of the original, blank-free at both ends, cut off only by blanks |
| Text.TrimEmpty | script.js:107 | trimming gives the empty string exactly for blank-only input |
| Text.SplitJoin | script.js:74 | splitting at line breaks and joining the pieces gives the text back; there is one more piece than breaks, and no piece holds a break |
| Text.Includes | script.js:81 | `includes` holds exactly when the pattern occurs at some position |
| Text.DecimalRoundTrip | script.js:109 | the decimal rendering of a line number is non-empty, all digits, and reads back as that number |
| Text.DecimalInjective | script.js:109 | different line numbers render differently |
| CsvLine.ParseLine | script.js:127-153 | the tokenizer loop, with its one-character skip over a doubled quote, returns exactly the fields of the quote-state machine, as many as the commas read outside quotes plus one |
| CsvLine.TokenizeCount | script.js:127-153 | a line always yields at least one field, one more than its separating commas |
| CsvLine.TokenizeQuotes | script.js:136-148 | the fields hold exactly one quote for each doubled quote read inside quotes (`EscapedPairs`), so at most half as many quotes as the line |
| CsvLine.DoubledQuoteOutside | script.js:136-148 | a doubled quote outside quotes is no escape: `a""b` reads back as the one field `ab` |
| CsvLine.TokenizeNoQuotes | script.js:136-148 | a line without quotes yields fields without quotes |
| CsvLine.TokenizeQuoteFree | script.js:127-153 | without quotes, the tokenizer splits at every comma, exactly as `split(',')` |
| CsvLine.Escape | script.js:281 | escaping doubles each quote and nothing else, so it adds one character per quote |
| CsvLine.ScanEscaped | script.js:136-148 | inside quotes, an escaped value followed by a closing quote reads back as the value, and the tokenizer leaves quotes |
| CsvLine.FieldRoundTrip | script.js:281-282 | a value escaped and wrapped in quotes reads back as exactly that one field, for every value, including the empty one and one that starts or ends with a quote |
| CsvImport.FindContext | script.js:81 | the identifier column is the first header cell containing `CONTEXT`, and there is none exactly when no cell contains it |
| CsvImport.ColumnsOfAt | script.js:88-94 | a language gets a column exactly when some trimmed header cell is its label, and its column is the last such cell |
| CsvImport.ColumnsOfEmpty | script.js:96-98 | the column map is empty exactly when no header cell is a column label |
| CsvImport.MapLanguageColumns | script.js:88-94 | the header loop builds exactly the column map of the specification |
| CsvImport.SyntheticIdsDistinct | script.js:109 | made-up identifiers of different lines differ |
| CsvImport.RowIdentifier | script.js:106-110 | a record's identifier is its trimmed identifier cell, or `translation_<line>` when that is empty or `null`, so it is never empty nor `null` |
| CsvImport.MadeUpIdCollides | script.js:106-110 | identifiers are not unique: a cell reading `translation_<j>` gets the same identifier as line `j` with an empty cell |
| CsvImport.BuildRecord | script.js:106-119 | building a record gives the identifier above and one trimmed translation per mapped language whose raw cell is present and non-empty |
| CsvImport.TranslationPresence | script.js:112-119 | a language is in a record exactly when its last labelled column reaches into the row with a non-empty cell; the value is that cell trimmed, so a blank cell gives a present empty text; unlabelled languages never appear |
| CsvImport.KeptLines | script.js:101-104 | the kept data lines are in increasing order, are exactly the lines from 1 on that have more fields than the identifier column's index, and are all listed |
| CsvImport.RecordsFollowLines | script.js:100-121 | there is exactly one record per kept data line, in line order; shorter lines are skipped without error |
| CsvImport.ParseRow | script.js:102-119 | one data line gives its record, or nothing when it is too short |
| CsvImport.ParseRows | script.js:100-121 | the row loop yields the records of the specification |
| CsvImport.ParseCsvData | script.js:73-125 | the import method returns exactly the result of the specification `ParseCsv` |
| CsvImport.ParseCsvErrors | script.js:74-98 | each of the three errors happens exactly when its condition holds: fewer than two lines, no `CONTEXT` cell, no language label |
| CsvImport.ParseCsvSuccess | script.js:80-124 | on success, the header has an identifier column and at least one language column, and the records are those of the data lines |
| CsvExport.CsvTextEmpty | script.js:275 | with no records, the document is the header line alone |
| CsvExport.CsvTextSnoc | script.js:278-285 | each record appends its line and one line break |
| CsvExport.LanguageCellsSnoc | script.js:280-283 | each language appends a comma and its value, escaped and quoted |
| CsvExport.RowFields | script.js:278-285 | an exported line reads back as the identifier and the seven values in canonical order, eight fields, provided the identifier holds no quote |
| CsvExport.IdCellNotEscaped | script.js:279 | the identifier is not escaped: `a"b` is read back as `ab` |
| CsvExport.ExportHeaderFields | script.js:275 | the exported header reads back as nine fields: the title split at its comma, then the seven labels |
| CsvExport.ExportedColumns | script.js:275 | re-importing the header finds the identifier in column 0 and each language two columns right of its canonical position, one to the right of where its value is written |
| CsvExport.ReimportedRecord | script.js:275-285 | a re-imported line whose identifier holds no quote has eight fields; its identifier is the trimmed identifier, or the made-up one when that is empty or `null`; each language gets the next language's value, trimmed, and there is no Russian |
| CsvExport.LinesOfTerminated | script.js:74 | the import's trim-and-split undoes the export's line joining |
| CsvExport.ExportedLinesRead | script.js:74 | when no identifier or text holds a line break, an exported document is read back as the header line and one line per record |
| CsvExport.ExportedHeaderRead | script.js:80-98 | the exported header passes the import's checks: it has the identifier column 0 and a language column |
| CsvExport.ReadAllRows | script.js:100-121 | with the identifier in column 0 every data line is kept, since a line always has a field: line `i` becomes record `i - 1` |
| CsvExport.ExportThenImport | script.js:73-125 | when no identifier or text holds a line break, re-importing an export succeeds with one record per exported record, in order, each read from its own line under the nine-field header |
| CsvExport.ExportedRowFields | script.js:278-285 | every exported line whose identifier holds no quote reads back as eight fields |
| CsvExport.QuotedIdOneField | script.js:278-285 | an identifier `x"y` with exactly one quote, followed by non-empty text without a comma, makes the whole exported line one field when the values hold no quote or comma |
| CsvExport.QuotedIdSwallowsRow | script.js:106-119 | under the same premises, re-importing that line gives a record without any translation |
| CsvImport.RecordAvoidsBreak | script.js:106-119 | a record built from cells without line breaks holds none, in its identifier (trimmed or made up) or its texts |
| CsvImport.ParsedRecordsAvoidBreak | script.js:100-121 | lines without line breaks give records without line breaks |
| CsvExport.ImportedBreakless | script.js:73-125 | every record a successful CSV import yields is free of line breaks, since the text is split at every line break first |
| CsvExport.ImportExportImport | script.js:73-125 | a store produced by the CSV import, exported and imported again, imports successfully with as many records |
| Stats.CellsAddUp | script.js:168-177 | filled and missing cells together are seven per record |
| Stats.NoTranslations | script.js:168-177 | no translation is counted exactly when no language is in use |
| Stats.UsedLanguagesSnoc | script.js:168-177 | the language set grows record by record by the languages each record fills |
| Stats.FilterMembers | script.js:199 | the filter keeps exactly the elements of the order that are in the set |
| Stats.FilterOrdered | script.js:199 | the filter keeps the canonical order of what it keeps |
| Stats.CanonicalOrderListsPresent | script.js:199 | the listed languages are exactly those in use, each once, in canonical order, as many as in the set |
| Store.TranslationStore.constructor | script.js:1-7 | the store starts empty |
| Store.TranslationStore.ImportCsv | script.js:73-125 | a successful import replaces the store with the parsed records; a failed one reports its error and leaves the store unchanged |
| Store.TranslationStore.Clear | script.js:322-329 | clearing empties the store |
| Store.TranslationStore.ExportCsv | script.js:267-289 | an empty store exports nothing; otherwise the export is the header line and one line per record, in store order |
| Store.TranslationStore.ExportRow | script.js:278-285 | the per-record loop writes the quoted identifier, then each language's value escaped and quoted, in canonical order |
| Store.TranslationStore.UsedSet | script.js:168-177 | the counting loop's set is exactly the languages some record fills |
| Store.TranslationStore.Statistics | script.js:162-183 | the counts are the number of records, the number of languages in use, and the filled and missing cells; filled plus missing is seven per record; no filled cell exactly when no language is in use |
| Store.TranslationStore.LanguageList | script.js:185-205 | the listed languages are exactly those some record fills, in canonical order, as many as the language count |
| JsonShape.CheckShapeMeaning | script.js:60 | the check accepts exactly the documents whose `stringresources.strings.string` path leads through objects to a truthy value; a `null` document fails by a thrown error |
| JsonShape.LeafOnlyTruthy | script.js:60 | for a document of the right nesting, acceptance depends only on the truthiness of the leaf |

## Left out

- The page itself is not modelled: DOM rendering, the preview table, notifications and their timers, and the element writes of `updateStats` and `updateLanguageList`. Nothing is stated about rendering.
- The language tag text shown by `updateLanguageList` is not modelled. Only the list of languages is.
- The codes and display names of `supportedLanguages` are not modelled. Records key their texts by language, and the display names only reach the page's tags.
- File reading, downloads, the clipboard and event wiring are not modelled. The model starts from the file's text and ends with the exported text.
- `JSON.parse` and `JSON.stringify` are library calls. The JSON document is an abstract tree, and the JSON export is not modelled.
- The JSON import's assignment of the whole parsed document to the store is not modelled. Turning arbitrary JSON values into records is outside the model, so only the shape check at line 60 is modelled.
- Keys that `csvColumnMap` inherits from `Object.prototype` are not modelled. A trimmed header cell such as `constructor` or `toString` finds a function there, which is truthy, so the import would add a bogus language column. The model's column map recognises only the seven labels.
- Object key order is not modelled. Records are maps from languages to text, and `Object.entries(languageColumns)` visits languages in insertion order. That order does not change the resulting record.
- Keys in a record other than `id` and the seven language codes are not modelled. A record here holds only those.
- `JsonShape.Json`: numbers are reals, so NaN and the sign of zero are not represented. `JSON.parse` never yields NaN, and both zeros are falsy.
- CsvExport.ExportedLinesRead: stated only for records without line breaks. The import splits at every line break, even inside quotes, so such a record's line is cut in pieces; what they become is not stated. The CSV import never yields such records (`CsvExport.ImportedBreakless`); only the JSON import, which is not modelled, can.
- CsvExport.ExportThenImport: stated only for records without line breaks, for the same reason; it covers every store the CSV import produces (`CsvExport.ImportExportImport`).
- Identifiers holding quotes other than as one quote followed by non-empty comma-free text: what their exported lines read back as is not stated.
