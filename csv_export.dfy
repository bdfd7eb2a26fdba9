/**
 * CSV export (`exportCSV`, script.js:267-289): the fixed header line, then one line per
 * record in store order. The identifier is wrapped in quotes without escaping; each
 * language's value, in canonical order, is escaped and wrapped in quotes, a missing value
 * giving an empty quoted field.
 *
 * The header's identifier label contains a comma and is not quoted, so reading the header
 * back yields nine fields instead of eight. Re-importing an export therefore reads every
 * language from its right-hand neighbour's column: `ExportThenImport` states the result.
 * An identifier holding a quote flips the quote state for the rest of its line, which can
 * then read back as a single field (`QuotedIdSwallowsRow`).
 */
module CsvExport {
  import opened Wrappers
  import opened Text
  import opened Languages
  import opened Records
  import opened CsvLine
  import opened CsvImport

  /** The identifier column's title up to its comma. */
  const ContextTitleStart: string := ContextMarker + " \U{2013} PLEASE"

  /** The identifier column's title after its comma. */
  const ContextTitleEnd: string := " LOOK HERE FOR SPECIFICATIONS"

  /** The identifier column's title: `CONTEXT – PLEASE, LOOK HERE FOR SPECIFICATIONS`. */
  const ContextTitle: string := ContextTitleStart + [Comma] + ContextTitleEnd

  /** For each language in `langs`: a comma and its column label. */
  function LabelCells(langs: seq<Lang>): string
  {
    if langs == [] then [] else [Comma] + ColumnLabel(langs[0]) + LabelCells(langs[1..])
  }

  /**
   * The header line: the identifier title, unquoted, then the seven column labels in
   * canonical order: `CONTEXT – PLEASE, LOOK HERE FOR SPECIFICATIONS,EN,DE,ES,FR,IT,BR PT,RU`.
   */
  const ExportHeader: string := ContextTitle + LabelCells(LanguageOrder)

  /** The quoted but unescaped identifier cell. */
  function IdCell(id: string): string
  {
    [Quote] + id + [Quote]
  }

  /** For each language in `langs`: a comma and the value, escaped and quoted. */
  function LanguageCells(r: Record, langs: seq<Lang>): string
  {
    if langs == [] then []
    else [Comma] + QuotedField(ExportValue(r, langs[0])) + LanguageCells(r, langs[1..])
  }

  /** The line written for one record (without its line break). */
  function RowText(r: Record): string
  {
    IdCell(r.id) + LanguageCells(r, LanguageOrder)
  }

  /** The lines, each followed by a line break, as the export appends them one by one. */
  function Terminated(lines: seq<string>): string
  {
    if lines == [] then []
    else Terminated(lines[..|lines| - 1]) + lines[|lines| - 1] + [LineBreak]
  }

  /** The lines of the export: the header, then one line per record in store order. */
  function ExportedLines(strings: seq<Record>): (lines: seq<string>)
    ensures |lines| == |strings| + 1
  {
    [ExportHeader] + seq(|strings|, i requires 0 <= i < |strings| => RowText(strings[i]))
  }

  /** The exported document. */
  function CsvText(strings: seq<Record>): string
  {
    Terminated(ExportedLines(strings))
  }

  /** The document of no records is the header line alone. */
  lemma CsvTextEmpty(strings: seq<Record>)
    requires strings == []
    ensures CsvText(strings) == ExportHeader + [LineBreak]
  {
    var lines := ExportedLines(strings);
    assert lines == [ExportHeader] && lines[..0] == [];
  }

  /** Each further record appends its line and a line break, as the export loop does. */
  lemma CsvTextSnoc(strings: seq<Record>, i: nat)
    requires i < |strings|
    ensures CsvText(strings[..i + 1]) == CsvText(strings[..i]) + RowText(strings[i]) + [LineBreak]
  {
    var after := ExportedLines(strings[..i + 1]);
    assert after[..|after| - 1] == ExportedLines(strings[..i]);
    assert after[|after| - 1] == RowText(strings[i]);
  }

  /** The values a record exports for `langs`, in that order ("" when missing). */
  function ExportValues(r: Record, langs: seq<Lang>): (vs: seq<string>)
    ensures |vs| == |langs|
  {
    seq(|langs|, k requires 0 <= k < |langs| => ExportValue(r, langs[k]))
  }

  /** Appending one language's cell, as the export loop does. */
  lemma {:induction false} LanguageCellsSnoc(r: Record, langs: seq<Lang>, l: Lang)
    ensures LanguageCells(r, langs + [l]) == LanguageCells(r, langs) + [Comma] + QuotedField(ExportValue(r, l))
  {
    if langs == [] {
      assert [l][1..] == [];
    } else {
      assert (langs + [l])[1..] == langs[1..] + [l];
      LanguageCellsSnoc(r, langs[1..], l);
    }
  }

  /** One cell, a comma then a quoted value, ends the current field and reads back as the value. */
  lemma ScanCell(v: string, tail: string, cur: string, acc: seq<string>)
    requires tail == [] || tail[0] != Quote
    ensures Scan([Comma] + QuotedField(v) + tail, cur, false, acc) == Scan(tail, v, false, acc + [cur])
  {
    var body := Escape(v) + [Quote] + tail;
    var none: string := [];
    assert [Comma] + QuotedField(v) + tail == [Comma] + ([Quote] + body);
    assert Scan([Quote] + body, none, false, acc + [cur]) == Scan(body, none, true, acc + [cur]);
    ScanEscaped(v, tail, none, acc + [cur]);
    assert none + v == v;
  }

  /** The export loop's step: the cells of the first `j + 1` languages extend those of the first `j`. */
  lemma LanguageCellsStep(r: Record, langs: seq<Lang>, j: nat, line: string)
    requires j < |langs|
    ensures line + LanguageCells(r, langs[..j]) + [Comma] + [Quote] + Escape(ExportValue(r, langs[j])) + [Quote]
            == line + LanguageCells(r, langs[..j + 1])
  {
    assert langs[..j + 1] == langs[..j] + [langs[j]];
    LanguageCellsSnoc(r, langs[..j], langs[j]);
  }

  /** Reading the language cells from outside quotes yields each value as one field. */
  lemma {:induction false} ScanCells(r: Record, langs: seq<Lang>, cur: string, acc: seq<string>)
    ensures Scan(LanguageCells(r, langs), cur, false, acc) == acc + [cur] + ExportValues(r, langs)
  {
    if langs == [] {
      assert ExportValues(r, langs) == [];
    } else {
      var v := ExportValue(r, langs[0]);
      var tail := LanguageCells(r, langs[1..]);
      assert tail == [] || tail[0] == Comma;
      ScanCell(v, tail, cur, acc);
      ScanCells(r, langs[1..], v, acc + [cur]);
      assert ExportValues(r, langs) == [v] + ExportValues(r, langs[1..]);
    }
  }

  /**
   * An exported line reads back as the identifier followed by the seven values in canonical
   * order, provided the identifier holds no quote (it is not escaped).
   */
  lemma RowFields(r: Record)
    requires Quote !in r.id
    ensures Tokenize(RowText(r)) == [r.id] + ExportValues(r, LanguageOrder)
    ensures |Tokenize(RowText(r))| == 8
  {
    var cells := LanguageCells(r, LanguageOrder);
    var line := RowText(r);
    EscapeQuoteFree(r.id);
    assert line == [Quote] + (Escape(r.id) + [Quote] + cells);
    assert line[0] == Quote && line[1..] == Escape(r.id) + [Quote] + cells;
    assert cells[0] == Comma;
    var none: string := [];
    ScanEscaped(r.id, cells, none, []);
    assert none + r.id == r.id;
    ScanCells(r, LanguageOrder, r.id, []);
  }

  /** An identifier holding a quote is not read back: `a"b` comes back as `ab`. */
  lemma IdCellNotEscaped()
    ensures Tokenize(IdCell("a\"b")) == ["ab"]
  {
    var line := IdCell("a\"b");
    var none: string := [];
    assert line == "\"a\"b\"";
    assert line[1..] == "a\"b\"" && line[2..] == "\"b\"" && line[3..] == "b\"" && line[4..] == "\"";
    assert none + ['a'] == "a" && "a" + ['b'] == "ab";
    calc {
      Tokenize(line);
      Scan(line[1..], none, true, []);  // opening quote
      Scan(line[2..], "a", true, []);
      Scan(line[3..], "a", false, []);  // a lone quote closes the span
      Scan(line[4..], "ab", false, []);
      Scan(none, "ab", true, []);       // the last quote opens a span that never closes
    }
  }

  /** The column labels of `langs`, in order. */
  function Labels(langs: seq<Lang>): (names: seq<string>)
    ensures |names| == |langs|
  {
    seq(|langs|, k requires 0 <= k < |langs| => ColumnLabel(langs[k]))
  }

  /** The fields of a header whose identifier title fell apart into `start` and `end`, then `langs`' labels. */
  function SplitHeaderFields(start: string, end: string, langs: seq<Lang>): seq<string>
  {
    [start, end] + Labels(langs)
  }

  /** The fields the exported header is read back as: the identifier title falls apart at its comma. */
  function HeaderFields(): seq<string>
  {
    SplitHeaderFields(ContextTitleStart, ContextTitleEnd, LanguageOrder)
  }

  /** Outside quotes, a comma then a plain label finishes the current field and reads the label. */
  lemma ScanLabelCell(name: string, tail: string, cur: string, acc: seq<string>)
    requires Quote !in name && Comma !in name
    ensures Scan([Comma] + name + tail, cur, false, acc) == Scan(tail, name, false, acc + [cur])
  {
    var none: string := [];
    assert ([Comma] + name + tail)[1..] == name + tail;
    ScanPlain(name, tail, none, acc + [cur]);
    assert none + name == name;
  }

  lemma {:induction false} ScanLabels(langs: seq<Lang>, cur: string, acc: seq<string>)
    ensures Scan(LabelCells(langs), cur, false, acc) == acc + [cur] + Labels(langs)
  {
    if langs == [] {
      assert Labels(langs) == [];
    } else {
      var name := ColumnLabel(langs[0]);
      var tail := LabelCells(langs[1..]);
      assert LabelCells(langs) == [Comma] + name + tail;
      ColumnLabelPlain(langs[0]);
      ScanLabelCell(name, tail, cur, acc);
      ScanLabels(langs[1..], name, acc + [cur]);
      assert Labels(langs) == [name] + Labels(langs[1..]);
    }
  }

  /** A column label survives trimming and names its language. */
  lemma LabelTrimmed(l: Lang)
    ensures HeaderLanguage(Trim(ColumnLabel(l))) == Some(l)
  {
    ColumnLabelPlain(l);
    TrimTrimmed(ColumnLabel(l));
    HeaderLanguageMeaning(ColumnLabel(l), l);
  }

  /** A title part that the tokenizer keeps whole and the column map does not recognise. */
  predicate PlainTitle(s: string) {
    Quote !in s && Comma !in s && HeaderLanguage(Trim(s)) == None
  }

  /** A header of two plain title parts around a comma, then label cells, reads back as parts and labels. */
  lemma ScanHeader(start: string, end: string, langs: seq<Lang>)
    requires Quote !in start && Comma !in start && Quote !in end && Comma !in end
    ensures Tokenize(start + [Comma] + end + LabelCells(langs)) == [start, end] + Labels(langs)
  {
    var labels := LabelCells(langs);
    var none: string := [];
    var rest := end + labels;
    var line := start + [Comma] + end + labels;
    assert line == start + ([Comma] + rest);
    ScanPlain(start, [Comma] + rest, none, []);
    assert none + start == start;
    var empty: seq<string> := [];
    assert ([Comma] + rest)[0] == Comma && ([Comma] + rest)[1..] == rest;
    assert empty + [start] == [start];
    assert Scan([Comma] + rest, start, false, empty) == Scan(rest, none, false, [start]);
    ScanPlain(end, labels, none, [start]);
    assert none + end == end;
    ScanLabels(langs, end, [start]);
    assert Scan(line, none, false, []) == [start] + [end] + Labels(langs);
    assert [start] + [end] + Labels(langs) == [start, end] + Labels(langs);
  }

  /** A string longer than every column label names no language. */
  lemma LongNotLabel(s: string)
    requires |s| > 5
    ensures HeaderLanguage(s) == None
  {
    forall l: Lang ensures HeaderLanguage(s) != Some(l) {
      HeaderLanguageMeaning(s, l);
    }
  }

  /** A long string without quote or comma and with non-blank ends is a plain title part. */
  lemma TrimmedPlain(s: string)
    requires |s| > 5 && !IsWhitespace(s[0]) && !IsWhitespace(s[|s| - 1]) && Quote !in s && Comma !in s
    ensures PlainTitle(s)
  {
    TrimTrimmed(s);
    LongNotLabel(s);
  }

  /** So is one with a single leading blank before such a string: trimming drops the blank. */
  lemma LeadingBlankPlain(s: string)
    requires |s| > 6 && IsWhitespace(s[0]) && !IsWhitespace(s[1]) && !IsWhitespace(s[|s| - 1])
    requires Quote !in s && Comma !in s
    ensures PlainTitle(s)
  {
    var e := s[1..];
    assert Trim(s) == Trim(e);
    TrimTrimmed(e);
    LongNotLabel(e);
  }

  /** The identifier title's first half is plain and holds the `CONTEXT` marker. */
  lemma TitleStartPlain()
    ensures PlainTitle(ContextTitleStart) && Includes(ContextTitleStart, ContextMarker)
  {
    TrimmedPlain(ContextTitleStart);
    assert OccursAt(ContextTitleStart, ContextMarker, 0);
  }

  /** The identifier title's second half is plain: its leading blank is trimmed away. */
  lemma TitleEndPlain()
    ensures PlainTitle(ContextTitleEnd)
  {
    LeadingBlankPlain(ContextTitleEnd);
  }

  /** The exported header is read back as nine fields, not eight. */
  lemma ExportHeaderFields()
    ensures Tokenize(ExportHeader) == HeaderFields()
    ensures |Tokenize(ExportHeader)| == 9
  {
    TitleStartPlain();
    TitleEndPlain();
    ScanHeader(ContextTitleStart, ContextTitleEnd, LanguageOrder);
  }

  /** What a split header's fields label: nothing for the two title parts, then its languages. */
  lemma SplitHeaderLabels(start: string, end: string, langs: seq<Lang>, k: nat)
    requires PlainTitle(start) && PlainTitle(end)
    requires k < |langs| + 2
    ensures HeaderLabels(SplitHeaderFields(start, end, langs))[k] == if k < 2 then None else Some(langs[k - 2])
  {
    var f := SplitHeaderFields(start, end, langs);
    assert HeaderLabels(f)[k] == HeaderLanguage(Trim(f[k]));
    if k < 2 {
      assert f[k] == [start, end][k];
    } else {
      assert f[k] == ColumnLabel(langs[k - 2]);
      LabelTrimmed(langs[k - 2]);
    }
  }

  /** Each language's column in a split header is two to the right of its canonical position. */
  lemma SplitHeaderColumns(start: string, end: string, l: Lang)
    requires PlainTitle(start) && PlainTitle(end)
    ensures l in LanguageColumns(SplitHeaderFields(start, end, LanguageOrder))
    ensures LanguageColumns(SplitHeaderFields(start, end, LanguageOrder))[l] == Position(l) + 2
  {
    var labels := HeaderLabels(SplitHeaderFields(start, end, LanguageOrder));
    var p := Position(l);
    ColumnsOfAt(labels, l);
    SplitHeaderLabels(start, end, LanguageOrder, p + 2);
    assert LabelsColumn(labels, p + 2, l);
    forall k | LabelsColumn(labels, k, l) ensures k == p + 2 {
      SplitHeaderLabels(start, end, LanguageOrder, k);
      LanguageOrderComplete();
    }
  }

  /** A split header whose first part holds the marker has its identifier in the first column. */
  lemma SplitHeaderContext(start: string, end: string)
    requires Includes(start, ContextMarker)
    ensures ContextColumn(SplitHeaderFields(start, end, LanguageOrder)) == Some(0)
  {
  }

  /**
   * Re-importing the exported header: the identifier column is the first, and each
   * language's column is one to the right of where the export writes that language.
   */
  lemma ExportedColumns(l: Lang)
    ensures ContextColumn(HeaderFields()) == Some(0)
    ensures l in LanguageColumns(HeaderFields()) && LanguageColumns(HeaderFields())[l] == Position(l) + 2
  {
    TitleStartPlain();
    TitleEndPlain();
    SplitHeaderContext(ContextTitleStart, ContextTitleEnd);
    SplitHeaderColumns(ContextTitleStart, ContextTitleEnd, l);
  }

  /**
   * Where each language is read back from an exported line: the cell one place to the right
   * of its own, which holds the next language's value; Russian's column is past the end.
   */
  lemma ShiftedCell(r: Record, l: Lang)
    requires Quote !in r.id
    ensures var row := Tokenize(RowText(r));
            var columns := LanguageColumns(HeaderFields());
            var p := Position(l);
            l in columns && columns[l] == p + 2
            && (p < 6 ==> p + 2 < |row| && row[p + 2] == ExportValue(r, LanguageOrder[p + 1]))
            && (p == 6 ==> p + 2 == |row|)
  {
    RowFields(r);
    ExportedColumns(l);
    var row := Tokenize(RowText(r));
    var p := Position(l);
    if p < 6 {
      assert row[p + 2] == ExportValues(r, LanguageOrder)[p + 1];
    }
  }

  /**
   * The record read back from an exported line: its identifier is the trimmed identifier (or
   * the made-up one when that is empty or `null`); every language takes the value of the
   * NEXT language in canonical order, and the last language (Russian) is lost.
   */
  lemma ReimportedRecord(r: Record, index: nat)
    requires Quote !in r.id
    ensures |Tokenize(RowText(r))| == 8
    ensures var back := RecordOf(Tokenize(RowText(r)), index, 0, LanguageColumns(HeaderFields()));
            Ru !in back.tr
            && forall k :: 0 <= k < 6 ==>
                 var l := LanguageOrder[k];
                 var src := LanguageOrder[k + 1];
                 (l in back.tr ==> Filled(r, src))
                 && (Filled(r, src) ==> l in back.tr && back.tr[l] == Trim(r.tr[src]))
    ensures var back := RecordOf(Tokenize(RowText(r)), index, 0, LanguageColumns(HeaderFields()));
            back.id == if Trim(r.id) == [] || Trim(r.id) == "null" then SyntheticId(index) else Trim(r.id)
  {
    var row := Tokenize(RowText(r));
    RowFields(r);
    assert row[0] == r.id;
    RowIdentifier(row, index, 0);
    var columns := LanguageColumns(HeaderFields());
    var tr := RowTranslations(row, columns);
    ShiftedCell(r, Ru);
    assert Position(Ru) == 6;
    assert !HasCell(row, columns, Ru);
    forall k | 0 <= k < 6
      ensures var l := LanguageOrder[k];
              var src := LanguageOrder[k + 1];
              (l in tr ==> Filled(r, src)) && (Filled(r, src) ==> l in tr && tr[l] == Trim(r.tr[src]))
    {
      var l := LanguageOrder[k];
      LanguageOrderComplete();
      assert Position(l) == k;
      ShiftedCell(r, l);
    }
  }

  /** Appending the lines one at a time from the front gives the same text. */
  lemma {:induction false} TerminatedCons(lines: seq<string>)
    requires |lines| >= 1
    ensures Terminated(lines) == lines[0] + [LineBreak] + Terminated(lines[1..])
    decreases |lines|
  {
    var n := |lines|;
    if n > 1 {
      var init := lines[..n - 1];
      TerminatedCons(init);
      assert init[0] == lines[0] && init[1..] == lines[1..][..n - 2];
      assert lines[1..][n - 2] == lines[n - 1];
    } else {
      assert lines[..0] == [] && lines[1..] == [];
    }
  }

  /** Splitting terminated lines at line breaks gives the lines back, then whatever follows. */
  lemma {:induction false} SplitTerminated(lines: seq<string>, rest: string)
    requires forall i :: 0 <= i < |lines| ==> LineBreak !in lines[i]
    ensures SplitFrom(Terminated(lines) + rest, LineBreak, []) == lines + SplitFrom(rest, LineBreak, [])
    decreases |lines|
  {
    if lines == [] {
      assert Terminated(lines) + rest == rest;
    } else {
      var none: string := [];
      var after := Terminated(lines[1..]) + rest;
      TerminatedCons(lines);
      assert Terminated(lines) + rest == lines[0] + [LineBreak] + after;
      SplitFromPiece(lines[0], LineBreak, none, after);
      assert none + lines[0] == lines[0];
      SplitTerminated(lines[1..], rest);
      assert [lines[0]] + lines[1..] == lines;
    }
  }

  /** Trimming a text that ends in one line break, after a non-blank, drops just that break. */
  lemma TrimFinalBreak(x: string)
    requires x != [] && !IsWhitespace(x[0]) && !IsWhitespace(x[|x| - 1])
    ensures Trim(x + [LineBreak]) == x
  {
    var t := x + [LineBreak];
    assert t[..|t| - 1] == x;
    assert Trim(t) == Trim(x);
    TrimTrimmed(x);
  }

  /**
   * The import's line split undoes the export's line joining: non-empty lines without line
   * breaks, the first starting and the last ending with a non-blank, are read back as written.
   */
  lemma LinesOfTerminated(lines: seq<string>)
    requires |lines| >= 1
    requires forall i :: 0 <= i < |lines| ==> LineBreak !in lines[i]
    requires lines[0] != [] && !IsWhitespace(lines[0][0])
    requires lines[|lines| - 1] != [] && !IsWhitespace(lines[|lines| - 1][|lines[|lines| - 1]| - 1])
    ensures Lines(Terminated(lines)) == lines
  {
    var n := |lines|;
    var init := lines[..n - 1];
    var last := lines[n - 1];
    var x := Terminated(init) + last;
    assert init + [last] == lines;
    if n > 1 {
      TerminatedCons(init);
      assert x[0] == lines[0][0];
    } else {
      assert init == [];
    }
    assert x[|x| - 1] == last[|last| - 1];
    TrimFinalBreak(x);
    assert Trim(Terminated(lines)) == x;
    SplitTerminated(init, last);
    SplitFromLast(last, LineBreak, []);
    var none: string := [];
    assert none + last == last;
  }

  /** Escaping adds only quotes. */
  lemma {:induction false} EscapeAddsOnlyQuotes(s: string, c: char)
    requires c != Quote && c !in s
    ensures c !in Escape(s)
    decreases |s|
  {
    if s != [] {
      EscapeAddsOnlyQuotes(s[1..], c);
    }
  }

  /** The language cells hold a line break only where a value does. */
  lemma {:induction false} LanguageCellsNoBreak(r: Record, langs: seq<Lang>)
    requires forall l :: l in r.tr ==> LineBreak !in r.tr[l]
    ensures LineBreak !in LanguageCells(r, langs)
    decreases |langs|
  {
    if langs != [] {
      EscapeAddsOnlyQuotes(ExportValue(r, langs[0]), LineBreak);
      LanguageCellsNoBreak(r, langs[1..]);
    }
  }

  /** Nor do the label cells of the header. */
  lemma {:induction false} LabelCellsNoBreak(langs: seq<Lang>)
    ensures LineBreak !in LabelCells(langs)
    decreases |langs|
  {
    if langs != [] {
      ColumnLabelPlain(langs[0]);
      LabelCellsNoBreak(langs[1..]);
    }
  }

  /** A record without line breaks is written on one line. */
  lemma RowTextNoBreak(r: Record)
    requires OneLine(r)
    ensures LineBreak !in RowText(r)
  {
    LanguageCellsNoBreak(r, LanguageOrder);
    assert RowText(r) == [Quote] + r.id + [Quote] + LanguageCells(r, LanguageOrder);
  }

  /** A record's line ends with the closing quote of its last value. */
  lemma RowTextEnd(r: Record)
    ensures RowText(r) != [] && RowText(r)[|RowText(r)| - 1] == Quote
  {
    var order := LanguageOrder;
    assert order == order[..6] + [order[6]];
    LanguageCellsSnoc(r, order[..6], order[6]);
  }

  /** A header line starts where its first title part does and holds no line break if its parts do not. */
  lemma HeaderLinePlain(start: string, end: string, langs: seq<Lang>)
    requires start != [] && LineBreak !in start && LineBreak !in end
    ensures var line := start + [Comma] + end + LabelCells(langs);
            line[0] == start[0] && LineBreak !in line
  {
    LabelCellsNoBreak(langs);
  }

  /** The header starts with the `C` of `CONTEXT` and holds no line break. */
  lemma ExportHeaderPlain()
    ensures ExportHeader != [] && !IsWhitespace(ExportHeader[0]) && LineBreak !in ExportHeader
  {
    HeaderLinePlain(ContextTitleStart, ContextTitleEnd, LanguageOrder);
    assert ContextTitleStart[0] == 'C';
  }

  /**
   * Whatever the CSV import produces holds no line break, since it splits its text at every
   * line break first: the premise of `ExportThenImport` holds for every imported store.
   */
  lemma ImportedBreakless(text: string)
    ensures ParseCsv(text).Success? ==> Breakless(ParseCsv(text).value)
  {
    var lines := Lines(text);
    SplitJoin(Trim(text), LineBreak);
    if |lines| >= 2 && ContextColumn(Tokenize(lines[0])).Some? {
      var headers := Tokenize(lines[0]);
      ParsedRecordsAvoidBreak(lines, ContextColumn(headers).value, LanguageColumns(headers), |lines|);
    }
  }

  /**
   * Any store the CSV import produced can be exported and imported again: the second import
   * succeeds with as many records as the first.
   */
  lemma ImportExportImport(text: string)
    requires ParseCsv(text).Success? && |ParseCsv(text).value| >= 1
    ensures ParseCsv(CsvText(ParseCsv(text).value)).Success?
    ensures |ParseCsv(CsvText(ParseCsv(text).value)).value| == |ParseCsv(text).value|
  {
    ImportedBreakless(text);
    ExportThenImport(ParseCsv(text).value);
  }

  /** The import reads the exported document back as its header line and one line per record. */
  lemma ExportedLinesRead(strings: seq<Record>)
    requires |strings| >= 1 && Breakless(strings)
    ensures Lines(CsvText(strings)) == ExportedLines(strings)
  {
    var lines := ExportedLines(strings);
    ExportHeaderPlain();
    ExportedLinesNoBreak(strings);
    RowTextEnd(strings[|strings| - 1]);
    LinesOfTerminated(lines);
  }

  /** No exported line holds a line break when no record does. */
  lemma ExportedLinesNoBreak(strings: seq<Record>)
    requires Breakless(strings)
    ensures forall i :: 0 <= i < |strings| + 1 ==> LineBreak !in ExportedLines(strings)[i]
  {
    var lines := ExportedLines(strings);
    ExportHeaderPlain();
    forall i | 0 <= i < |lines| ensures LineBreak !in lines[i] {
      if i > 0 {
        RowTextNoBreak(strings[i - 1]);
      }
    }
  }

  /**
   * With the identifier in column 0, every data line is kept, since a line always has a
   * field: line `i` becomes record `i - 1`.
   */
  lemma {:induction false} ReadAllRows(lines: seq<string>, columns: map<Lang, nat>, n: nat)
    requires 1 <= n <= |lines|
    ensures |ParsedRecords(lines, 0, columns, n)| == n - 1
    ensures forall i :: 1 <= i < n ==>
              |Tokenize(lines[i])| >= 1
              && ParsedRecords(lines, 0, columns, n)[i - 1] == RecordOf(Tokenize(lines[i]), i, 0, columns)
    decreases n
  {
    if n > 1 {
      ReadAllRows(lines, columns, n - 1);
      TokenizeCount(lines[n - 1]);
    }
  }

  /**
   * Exporting then importing: the import succeeds with one record per exported record, in
   * order, each read from its own line under the nine-field header; `ReimportedRecord` says
   * what those records hold. `ExportedRowFields` gives each line its eight fields when the
   * identifier holds no quote; `QuotedIdSwallowsRow` shows what a quote there does.
   */
  lemma ExportThenImport(strings: seq<Record>)
    requires |strings| >= 1 && Breakless(strings)
    ensures ParseCsv(CsvText(strings)).Success?
    ensures |ParseCsv(CsvText(strings)).value| == |strings|
    ensures forall i :: 0 <= i < |strings| ==>
              |Tokenize(RowText(strings[i]))| >= 1
              && ParseCsv(CsvText(strings)).value[i]
                 == RecordOf(Tokenize(RowText(strings[i])), i + 1, 0, LanguageColumns(HeaderFields()))
  {
    ExportedLinesRead(strings);
    ExportedLineTexts(strings);
    ImportedRows(CsvText(strings), ExportedLines(strings));
  }

  /** The export's first line is its header, which reads back as `HeaderFields`; line `i + 1` is record `i`'s line. */
  lemma ExportedLineTexts(strings: seq<Record>)
    ensures Tokenize(ExportedLines(strings)[0]) == HeaderFields()
    ensures forall i :: 0 <= i < |strings| ==> ExportedLines(strings)[i + 1] == RowText(strings[i])
  {
    ExportHeaderFields();
    assert ExportedLines(strings)[0] == ExportHeader;
  }

  /** Every exported line whose identifier holds no quote reads back as eight fields. */
  lemma ExportedRowFields(strings: seq<Record>)
    ensures forall i :: 0 <= i < |strings| && Quote !in strings[i].id ==> |Tokenize(RowText(strings[i]))| == 8
  {
    forall i | 0 <= i < |strings| && Quote !in strings[i].id ensures |Tokenize(RowText(strings[i]))| == 8 {
      RowFields(strings[i]);
    }
  }

  /** Under the exported header, data line `i` becomes record `i - 1`. */
  lemma ImportedRows(text: string, lines: seq<string>)
    requires Lines(text) == lines && |lines| >= 2 && Tokenize(lines[0]) == HeaderFields()
    ensures ParseCsv(text).Success? && |ParseCsv(text).value| == |lines| - 1
    ensures forall i :: 1 <= i < |lines| ==>
              |Tokenize(lines[i])| >= 1
              && ParseCsv(text).value[i - 1] == RecordOf(Tokenize(lines[i]), i, 0, LanguageColumns(HeaderFields()))
  {
    ImportUnderExportHeader(text, lines);
    ReadAllRows(lines, LanguageColumns(HeaderFields()), |lines|);
  }

  /** A document whose first line reads as the exported header is imported line by line under it. */
  lemma ImportUnderExportHeader(text: string, lines: seq<string>)
    requires Lines(text) == lines && |lines| >= 2 && Tokenize(lines[0]) == HeaderFields()
    ensures ParseCsv(text).Success?
    ensures ParseCsv(text).value == ParsedRecords(lines, 0, LanguageColumns(HeaderFields()), |lines|)
  {
    ExportedHeaderRead();
  }

  /** The exported header passes the import's checks: it has an identifier column and a language column. */
  lemma ExportedHeaderRead()
    ensures ContextColumn(HeaderFields()) == Some(0) && |LanguageColumns(HeaderFields())| > 0
  {
    ExportedColumns(En);
  }

  /**
   * Inside quotes, one exported cell whose value holds no quote or comma leaves the
   * tokenizer inside quotes again and only extends the current field.
   */
  lemma ScanCellQuoted(v: string, rest: string, cur: string, acc: seq<string>)
    requires Quote !in v && Comma !in v
    ensures Scan([Comma] + QuotedField(v) + rest, cur, true, acc)
            == Scan(rest, cur + [Comma] + (if v == [] then [Quote] else v), true, acc)
  {
    EscapeQuoteFree(v);
    var field := [Quote] + v + [Quote] + rest;
    assert ([Comma] + QuotedField(v) + rest)[1..] == field;
    if v == [] {
      ScanQuotePair(rest, cur + [Comma], acc);
    } else {
      ScanSpanClosed(v, rest, cur + [Comma], acc);
    }
  }

  /** Inside quotes, a doubled quote reads as one quote. */
  lemma ScanQuotePair(rest: string, cur: string, acc: seq<string>)
    ensures Scan([Quote] + [] + [Quote] + rest, cur, true, acc) == Scan(rest, cur + [Quote], true, acc)
  {
    assert ([Quote] + [] + [Quote] + rest)[2..] == rest;
  }

  /**
   * Inside quotes, a quote closes the span when a plain text follows, and the quote after
   * that text opens a span again.
   */
  lemma ScanSpanClosed(v: string, rest: string, cur: string, acc: seq<string>)
    requires v != [] && Quote !in v && Comma !in v
    ensures Scan([Quote] + v + [Quote] + rest, cur, true, acc) == Scan(rest, cur + v, true, acc)
  {
    var after := [Quote] + rest;
    assert ([Quote] + v + [Quote] + rest)[1..] == v + after;
    assert (v + after)[0] == v[0];
    ScanPlain(v, after, cur, acc);
    assert after[1..] == rest;
  }

  /** Read from inside quotes, cells whose values hold no quote or comma never end the field. */
  lemma {:induction false} ScanCellsQuoted(r: Record, langs: seq<Lang>, cur: string, acc: seq<string>)
    requires forall l :: l in langs ==> Quote !in ExportValue(r, l) && Comma !in ExportValue(r, l)
    ensures |Scan(LanguageCells(r, langs), cur, true, acc)| == |acc| + 1
    decreases |langs|
  {
    if langs == [] {
    } else {
      var v := ExportValue(r, langs[0]);
      var tail := LanguageCells(r, langs[1..]);
      assert LanguageCells(r, langs) == [Comma] + QuotedField(v) + tail;
      ScanCellQuoted(v, tail, cur, acc);
      ScanCellsQuoted(r, langs[1..], cur + [Comma] + (if v == [] then [Quote] else v), acc);
    }
  }

  /**
   * The identifier cell is not escaped, so one quote in an identifier flips the quote state
   * for the rest of the line: when the values hold no quote or comma, the whole line reads
   * back as ONE field.
   */
  lemma QuotedIdOneField(r: Record, x: string, y: string)
    requires r.id == x + [Quote] + y && Quote !in x
    requires y != [] && Quote !in y && Comma !in y
    requires forall l :: Quote !in ExportValue(r, l) && Comma !in ExportValue(r, l)
    ensures |Tokenize(RowText(r))| == 1
  {
    var cells := LanguageCells(r, LanguageOrder);
    var none: string := [];
    var tail := [Quote] + cells;
    var rest := y + tail;
    var inner := Escape(x) + [Quote] + rest;
    EscapeQuoteFree(x);
    assert RowText(r) == [Quote] + inner;
    assert Tokenize(RowText(r)) == Scan(inner, none, true, []) by {
      assert ([Quote] + inner)[1..] == inner;
    }
    assert rest[0] == y[0];
    ScanEscaped(x, rest, none, []);
    ScanPlain(y, tail, none + x, []);
    assert Scan(tail, none + x + y, false, []) == Scan(cells, none + x + y, true, []) by {
      assert tail[1..] == cells;
    }
    ScanCellsQuoted(r, LanguageOrder, none + x + y, []);
  }

  /** Such a line, re-imported, gives a record without any translation, whatever `r` held. */
  lemma QuotedIdSwallowsRow(r: Record, x: string, y: string, index: nat)
    requires r.id == x + [Quote] + y && Quote !in x
    requires y != [] && Quote !in y && Comma !in y
    requires forall l :: Quote !in ExportValue(r, l) && Comma !in ExportValue(r, l)
    ensures |Tokenize(RowText(r))| == 1
    ensures RecordOf(Tokenize(RowText(r)), index, 0, LanguageColumns(HeaderFields())).tr == map[]
  {
    QuotedIdOneField(r, x, y);
    var row := Tokenize(RowText(r));
    var columns := LanguageColumns(HeaderFields());
    forall l ensures !HasCell(row, columns, l) {
      ExportedColumns(l);
    }
    assert RowTranslations(row, columns) == map[];
  }
}
