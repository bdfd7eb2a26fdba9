/**
 * CSV import (`parseCSVData`, script.js:73-125): from spreadsheet text to the ordered
 * sequence of string records, or one of three format errors.
 *
 * The text is trimmed and split into lines at `\n`. The first line is the header: its
 * identifier column is the first cell containing `CONTEXT`, and each cell whose trimmed text
 * is a column label names the column of that language, a later such cell replacing an
 * earlier one. Every following line long enough to reach the identifier column becomes one
 * record, in line order; shorter lines are dropped without an error.
 */
module CsvImport {
  import opened Wrappers
  import opened Text
  import opened Languages
  import opened Records
  import opened CsvLine

  datatype CsvError =
    | TooFewLines        // fewer than a header line and one data line
    | NoContextColumn    // no header cell contains CONTEXT
    | NoLanguageColumns  // no trimmed header cell is a column label

  const ContextMarker: string := "CONTEXT"
  const LineBreak: char := '\n'
  const SyntheticPrefix: string := "translation_"

  /** The lines of the imported text. */
  function Lines(text: string): seq<string>
  {
    Split(Trim(text), LineBreak)
  }

  /** `headers.findIndex(h => h.includes('CONTEXT'))`, searching from position `from`. */
  function FindContext(headers: seq<string>, from: nat): (r: Option<nat>)
    ensures r.Some? ==> from <= r.value < |headers| && Includes(headers[r.value], ContextMarker)
                        && forall k :: from <= k < r.value ==> !Includes(headers[k], ContextMarker)
    ensures r.None? ==> forall k :: from <= k < |headers| ==> !Includes(headers[k], ContextMarker)
    decreases |headers| - from
  {
    if from >= |headers| then None
    else if Includes(headers[from], ContextMarker) then Some(from)
    else FindContext(headers, from + 1)
  }

  /** The identifier column: the first header cell that contains `CONTEXT`. */
  function ContextColumn(headers: seq<string>): Option<nat>
  {
    FindContext(headers, 0)
  }

  /** The language each header cell labels, if any: the column map applied to the trimmed cell. */
  function HeaderLabels(headers: seq<string>): (labels: seq<Option<Lang>>)
  {
    seq(|headers|, k requires 0 <= k < |headers| => HeaderLanguage(Trim(headers[k])))
  }

  /** Header cell `k` is a column label for language `l`. */
  predicate LabelsColumn(labels: seq<Option<Lang>>, k: int, l: Lang) {
    0 <= k < |labels| && labels[k] == Some(l)
  }

  /**
   * The column map built from the labels, one cell after the other: a labelled cell
   * sets its language's column, replacing what an earlier cell set.
   */
  function ColumnsOf(labels: seq<Option<Lang>>): map<Lang, nat>
  {
    if labels == [] then map[]
    else
      var k := |labels| - 1;
      match labels[k]
      case Some(l) => ColumnsOf(labels[..k])[l := k]
      case None => ColumnsOf(labels[..k])
  }

  /** The language columns of a header row. */
  function LanguageColumns(headers: seq<string>): map<Lang, nat>
  {
    ColumnsOf(HeaderLabels(headers))
  }

  /**
   * A language has a column exactly when some header cell labels it, and its column is the
   * LAST cell that does.
   */
  lemma {:induction false} ColumnsOfAt(labels: seq<Option<Lang>>, l: Lang)
    ensures l in ColumnsOf(labels) <==> exists k :: LabelsColumn(labels, k, l)
    ensures l in ColumnsOf(labels) ==>
              var c := ColumnsOf(labels)[l];
              LabelsColumn(labels, c, l) && forall k :: c < k < |labels| ==> !LabelsColumn(labels, k, l)
  {
    if labels != [] {
      var k := |labels| - 1;
      var prefix := labels[..k];
      ColumnsOfAt(prefix, l);
      assert forall j :: LabelsColumn(prefix, j, l) <==> j < k && LabelsColumn(labels, j, l);
      if labels[k] == Some(l) {
        assert LabelsColumn(labels, k, l);
      } else {
        assert !LabelsColumn(labels, k, l);
      }
    }
  }

  /** No column map at all exactly when no header cell is a column label. */
  lemma ColumnsOfEmpty(labels: seq<Option<Lang>>)
    ensures ColumnsOf(labels) == map[] <==> forall k, l :: !LabelsColumn(labels, k, l)
  {
    if ColumnsOf(labels) == map[] {
      forall k, l ensures !LabelsColumn(labels, k, l) {
        ColumnsOfAt(labels, l);
      }
    } else {
      var l :| l in ColumnsOf(labels);
      ColumnsOfAt(labels, l);
    }
  }

  /** Filling the column map with `forEach`: each labelled cell overwrites its language's entry. */
  method MapLanguageColumns(headers: seq<string>) returns (columns: map<Lang, nat>)
    ensures columns == LanguageColumns(headers)
  {
    ghost var labels := HeaderLabels(headers);
    columns := map[];
    var index := 0;
    while index < |headers|
      invariant 0 <= index <= |headers|
      invariant columns == ColumnsOf(labels[..index])
    {
      assert labels[..index + 1][..index] == labels[..index];
      var clean := Trim(headers[index]);
      var found := HeaderLanguage(clean);
      assert labels[..index + 1][index] == found;
      if found.Some? {
        columns := columns[found.value := index];
      }
      index := index + 1;
    }
    assert labels[..|headers|] == labels;
  }

  /** The identifier made up for a data line at `index` (the header being line 0). */
  function SyntheticId(index: nat): string
  {
    SyntheticPrefix + Decimal(index)
  }

  /** Made-up identifiers of different lines differ, so they are unique within one import. */
  lemma SyntheticIdsDistinct(i: nat, j: nat)
    requires i != j
    ensures SyntheticId(i) != SyntheticId(j)
  {
    if SyntheticId(i) == SyntheticId(j) {
      assert SyntheticId(i)[|SyntheticPrefix|..] == Decimal(i);
      assert SyntheticId(j)[|SyntheticPrefix|..] == Decimal(j);
      DecimalInjective(i, j);
    }
  }

  /** The identifier of a data row: its trimmed identifier cell, or the made-up one. */
  function RowId(row: seq<string>, index: nat, context: nat): string
    requires context < |row|
  {
    var id := Trim(row[context]);
    if id == [] || id == "null" then SyntheticId(index) else id
  }

  /**
   * A record's identifier is its trimmed identifier cell, unless that is empty or the text
   * `null`, in which case it is the line's made-up identifier; so it is never empty.
   */
  lemma RowIdentifier(row: seq<string>, index: nat, context: nat)
    requires context < |row|
    ensures RowId(row, index, context) != [] && RowId(row, index, context) != "null"
    ensures var cell := Trim(row[context]);
            RowId(row, index, context) == if cell == [] || cell == "null" then SyntheticId(index) else cell
  {
  }

  /**
   * Identifiers are not checked for uniqueness: a line whose identifier cell is literally
   * `translation_<j>` gets the same identifier as line `j` with an empty cell.
   */
  lemma MadeUpIdCollides(a: seq<string>, b: seq<string>, i: nat, j: nat, context: nat)
    requires context < |a| && context < |b|
    requires Trim(a[context]) == SyntheticId(j) && Trim(b[context]) == []
    ensures RowId(a, i, context) == RowId(b, j, context)
  {
    RowIdentifier(b, j, context);
  }

  /** The cell a language reads from is there and non-empty before trimming (JavaScript truthiness). */
  predicate HasCell(row: seq<string>, columns: map<Lang, nat>, l: Lang) {
    l in columns && columns[l] < |row| && row[columns[l]] != []
  }

  /** The translations of a data row: one per language whose cell is there and non-empty, trimmed. */
  function RowTranslations(row: seq<string>, columns: map<Lang, nat>): map<Lang, string>
  {
    map l | l in columns && HasCell(row, columns, l) :: Trim(row[columns[l]])
  }

  function RecordOf(row: seq<string>, index: nat, context: nat, columns: map<Lang, nat>): Record
    requires context < |row|
  {
    Record(RowId(row, index, context), RowTranslations(row, columns))
  }

  /** Building one record: the identifier, then one translation per mapped language. */
  method BuildRecord(row: seq<string>, index: nat, context: nat, columns: map<Lang, nat>)
    returns (rec: Record)
    requires context < |row|
    ensures rec == RecordOf(row, index, context, columns)
  {
    var id := Trim(row[context]);
    if id == [] || id == "null" {
      id := SyntheticId(index);
    }
    var tr: map<Lang, string> := map[];
    var pending := columns.Keys;
    while pending != {}
      invariant pending <= columns.Keys
      invariant forall l :: l in tr <==> l in columns && l !in pending && HasCell(row, columns, l)
      invariant forall l :: l in tr ==> tr[l] == Trim(row[columns[l]])
      decreases pending
    {
      var l :| l in pending;
      var column := columns[l];
      if column < |row| && row[column] != [] {
        tr := tr[l := Trim(row[column])];
      }
      pending := pending - {l};
    }
    assert tr == RowTranslations(row, columns);
    rec := Record(id, tr);
  }

  /** Data line `i` becomes a record: it has more fields than the identifier column's index. */
  predicate Kept(lines: seq<string>, context: nat, i: int) {
    1 <= i < |lines| && |Tokenize(lines[i])| > context
  }

  /** The record built from data line `i`, when it is kept. */
  function LineRecord(lines: seq<string>, context: nat, columns: map<Lang, nat>, i: nat): seq<Record>
    requires i < |lines|
  {
    var row := Tokenize(lines[i]);
    if 1 <= i && |row| > context then [RecordOf(row, i, context, columns)] else []
  }

  /** The records built from the data lines before line `n`. */
  function ParsedRecords(lines: seq<string>, context: nat, columns: map<Lang, nat>, n: nat): seq<Record>
    requires n <= |lines|
  {
    if n <= 1 then [] else ParsedRecords(lines, context, columns, n - 1) + LineRecord(lines, context, columns, n - 1)
  }

  /** A record whose identifier and texts hold no line break. */
  predicate OneLine(r: Record) {
    LineBreak !in r.id && forall l :: l in r.tr ==> LineBreak !in r.tr[l]
  }

  /** Records whose identifiers and texts hold no line break: the export writes each on one line. */
  predicate Breakless(strings: seq<Record>) {
    forall i :: 0 <= i < |strings| ==> OneLine(strings[i])
  }

  /**
   * A record built from cells without line breaks holds none: `trim` adds no character and a
   * made-up identifier is the prefix and digits.
   */
  lemma RecordAvoidsBreak(row: seq<string>, index: nat, context: nat, columns: map<Lang, nat>)
    requires context < |row| && forall k :: 0 <= k < |row| ==> LineBreak !in row[k]
    ensures OneLine(RecordOf(row, index, context, columns))
  {
    TrimAvoids(row[context], LineBreak);
    var digits := Decimal(index);
    assert forall k :: 0 <= k < |digits| ==> digits[k] != LineBreak;
    assert LineBreak !in SyntheticPrefix;
    assert LineBreak !in SyntheticId(index);
    forall l | l in RowTranslations(row, columns) ensures LineBreak !in RowTranslations(row, columns)[l] {
      TrimAvoids(row[columns[l]], LineBreak);
    }
  }

  /** Lines without line breaks give records without line breaks. */
  lemma {:induction false} ParsedRecordsAvoidBreak(lines: seq<string>, context: nat, columns: map<Lang, nat>, n: nat)
    requires n <= |lines| && forall i :: 0 <= i < |lines| ==> LineBreak !in lines[i]
    ensures Breakless(ParsedRecords(lines, context, columns, n))
    decreases n
  {
    if n > 1 {
      ParsedRecordsAvoidBreak(lines, context, columns, n - 1);
      var prev := ParsedRecords(lines, context, columns, n - 1);
      var last := LineRecord(lines, context, columns, n - 1);
      var rs := ParsedRecords(lines, context, columns, n);
      assert rs == prev + last;
      var row := Tokenize(lines[n - 1]);
      if |row| > context {
        TokenizeAvoids(lines[n - 1], LineBreak);
        RecordAvoidsBreak(row, n - 1, context, columns);
        assert last == [RecordOf(row, n - 1, context, columns)];
      } else {
        assert last == [];
      }
      forall k | 0 <= k < |rs| ensures OneLine(rs[k]) {
        if k < |prev| {
          assert rs[k] == prev[k];
        } else {
          assert rs[k] == last[k - |prev|];
        }
      }
    }
  }

  /** The data lines before line `n` that become records, in line order. */
  function KeptLines(lines: seq<string>, context: nat, n: nat): (ks: seq<nat>)
    requires n <= |lines|
    ensures forall a, b :: 0 <= a < b < |ks| ==> ks[a] < ks[b]
    ensures forall a :: 0 <= a < |ks| ==> ks[a] < n && Kept(lines, context, ks[a])
    ensures forall i :: 0 <= i < n && Kept(lines, context, i) ==> i in ks
  {
    if n <= 1 then []
    else KeptLines(lines, context, n - 1) + if Kept(lines, context, n - 1) then [n - 1] else []
  }

  /** Record `k` of the import is built from kept line `i`. */
  predicate BuiltFrom(lines: seq<string>, context: nat, columns: map<Lang, nat>, records: seq<Record>, k: int, i: nat)
    requires i < |lines|
  {
    0 <= k < |records| && |Tokenize(lines[i])| > context
    && records[k] == RecordOf(Tokenize(lines[i]), i, context, columns)
  }

  /**
   * There is exactly one record per kept data line, in line order: the k-th record is
   * built from the k-th kept line.
   */
  lemma {:induction false} RecordsFollowLines(lines: seq<string>, context: nat, columns: map<Lang, nat>, n: nat)
    requires n <= |lines|
    ensures |ParsedRecords(lines, context, columns, n)| == |KeptLines(lines, context, n)|
    ensures forall k :: 0 <= k < |KeptLines(lines, context, n)| ==>
              BuiltFrom(lines, context, columns, ParsedRecords(lines, context, columns, n), k, KeptLines(lines, context, n)[k])
  {
    if n > 1 {
      var rs := ParsedRecords(lines, context, columns, n - 1);
      var ks := KeptLines(lines, context, n - 1);
      RecordsFollowLines(lines, context, columns, n - 1);
      var rs' := ParsedRecords(lines, context, columns, n);
      var ks' := KeptLines(lines, context, n);
      assert rs' == rs + LineRecord(lines, context, columns, n - 1);
      forall k | 0 <= k < |ks'|
        ensures BuiltFrom(lines, context, columns, rs', k, ks'[k])
      {
        if k < |ks| {
          assert ks'[k] == ks[k] && rs'[k] == rs[k];
          assert BuiltFrom(lines, context, columns, rs, k, ks[k]);
        }
      }
    }
  }

  /** The records of the first `i + 1` lines: those of the first `i`, then line `i`'s. */
  lemma ParsedRecordsStep(lines: seq<string>, context: nat, columns: map<Lang, nat>, i: nat)
    requires 1 <= i < |lines|
    ensures ParsedRecords(lines, context, columns, i + 1)
            == ParsedRecords(lines, context, columns, i) + LineRecord(lines, context, columns, i)
  {
  }

  /** Reading one data line: its record, or nothing when the line is too short. */
  method ParseRow(lines: seq<string>, context: nat, columns: map<Lang, nat>, i: nat) returns (next: seq<Record>)
    requires 1 <= i < |lines|
    ensures next == LineRecord(lines, context, columns, i)
    ensures |next| <= 1
  {
    var row := ParseLine(lines[i]);
    if |row| <= context {
      return [];  // short row: skipped without an error
    }
    var rec := BuildRecord(row, i, context, columns);
    next := [rec];
  }

  /** Reading the data lines: one record per long-enough line, in line order. */
  method ParseRows(lines: seq<string>, context: nat, columns: map<Lang, nat>) returns (strings: seq<Record>)
    ensures strings == ParsedRecords(lines, context, columns, |lines|)
  {
    strings := [];
    if |lines| == 0 {
      return;
    }
    var i := 1;
    while i < |lines|
      invariant 1 <= i <= |lines|
      invariant strings == ParsedRecords(lines, context, columns, i)
    {
      var next := ParseRow(lines, context, columns, i);
      strings := strings + next;
      ParsedRecordsStep(lines, context, columns, i);
      i := i + 1;
    }
  }

  /** The whole import: the records, or the first of the three format errors that applies. */
  function ParseCsv(text: string): Result<seq<Record>, CsvError>
  {
    var lines := Lines(text);
    if |lines| < 2 then Failure(TooFewLines)
    else
      var headers := Tokenize(lines[0]);
      match ContextColumn(headers)
      case None => Failure(NoContextColumn)
      case Some(context) =>
        var columns := LanguageColumns(headers);
        if |columns| == 0 then Failure(NoLanguageColumns)
        else Success(ParsedRecords(lines, context, columns, |lines|))
  }

  /** `parseCSVData` up to the assignment of its result. */
  method ParseCsvData(text: string) returns (res: Result<seq<Record>, CsvError>)
    ensures res == ParseCsv(text)
  {
    var lines := Split(Trim(text), LineBreak);
    if |lines| < 2 {
      return Failure(TooFewLines);
    }
    var headers := ParseLine(lines[0]);
    var found := ContextColumn(headers);
    if found.None? {
      return Failure(NoContextColumn);
    }
    var context := found.value;
    var columns := MapLanguageColumns(headers);
    if |columns| == 0 {
      return Failure(NoLanguageColumns);
    }
    var strings := ParseRows(lines, context, columns);
    res := Success(strings);
  }

  /** The three ways the import fails, each exactly when its condition holds. */
  lemma ParseCsvErrors(text: string)
    ensures ParseCsv(text) == Failure(TooFewLines) <==> |Lines(text)| < 2
    ensures ParseCsv(text) == Failure(NoContextColumn) <==>
              |Lines(text)| >= 2 && forall k :: 0 <= k < |Tokenize(Lines(text)[0])| ==>
                !Includes(Tokenize(Lines(text)[0])[k], ContextMarker)
    ensures ParseCsv(text) == Failure(NoLanguageColumns) <==>
              |Lines(text)| >= 2 && ContextColumn(Tokenize(Lines(text)[0])).Some?
              && forall k, l :: !LabelsColumn(HeaderLabels(Tokenize(Lines(text)[0])), k, l)
  {
    var lines := Lines(text);
    if |lines| >= 2 {
      var labels := HeaderLabels(Tokenize(lines[0]));
      ColumnsOfEmpty(labels);
      assert |ColumnsOf(labels)| == 0 <==> ColumnsOf(labels) == map[];
    }
  }

  /**
   * A successful import: the identifier column is the first CONTEXT cell, some language has
   * a column, and the records are those built from the data lines.
   */
  lemma ParseCsvSuccess(text: string)
    requires ParseCsv(text).Success?
    ensures |Lines(text)| >= 2
    ensures var headers := Tokenize(Lines(text)[0]);
            ContextColumn(headers).Some? && LanguageColumns(headers) != map[]
            && ParseCsv(text).value
               == ParsedRecords(Lines(text), ContextColumn(headers).value, LanguageColumns(headers), |Lines(text)|)
  {
  }

  /**
   * A language is present in an imported record exactly when the last column labelled for
   * it reaches into the row and holds a non-empty cell; the value is that cell trimmed, so
   * a blank-only cell gives a present empty translation. Unlabelled languages never appear.
   */
  lemma TranslationPresence(headers: seq<string>, row: seq<string>, index: nat, context: nat, l: Lang)
    requires context < |row|
    ensures var labels := HeaderLabels(headers);
            var rec := RecordOf(row, index, context, LanguageColumns(headers));
            (l in rec.tr <==> exists k :: LabelsColumn(labels, k, l) && k < |row| && row[k] != []
                                && forall j :: k < j < |labels| ==> !LabelsColumn(labels, j, l))
            && (l in rec.tr ==> rec.tr[l] == Trim(row[LanguageColumns(headers)[l]]))
            && ((forall k :: !LabelsColumn(labels, k, l)) ==> l !in rec.tr)
  {
    var labels := HeaderLabels(headers);
    var columns := LanguageColumns(headers);
    ColumnsOfAt(labels, l);
    if exists k :: LabelsColumn(labels, k, l) && k < |row| && row[k] != []
                   && forall j :: k < j < |labels| ==> !LabelsColumn(labels, j, l) {
      var k :| LabelsColumn(labels, k, l) && k < |row| && row[k] != []
               && forall j :: k < j < |labels| ==> !LabelsColumn(labels, j, l);
      assert columns[l] == k;
    }
  }
}
