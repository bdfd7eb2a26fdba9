/**
 * The page's translation store (`translationData.stringresources.strings.string`) and the
 * operations that replace, clear, serialize and summarise it: the CSV import's final
 * assignment (script.js:124), `clearData` (script.js:322-329), the CSV export loop
 * (script.js:267-289) and the counting loops of `updateStats` and `updateLanguageList`
 * (script.js:162-205).
 */
module Store {
  import opened Wrappers
  import opened Languages
  import opened Records
  import opened CsvLine
  import opened CsvImport
  import opened CsvExport
  import opened Stats

  class TranslationStore {
    /** The records, in store order. */
    var strings: seq<Record>

    /** The page starts with an empty list of strings. */
    constructor()
      ensures strings == []
    {
      strings := [];
    }

    /**
     * Importing a CSV file: on success the records replace the store; on any of the three
     * format errors the store is left as it was, since it is assigned only at the very end.
     */
    method ImportCsv(text: string) returns (err: Option<CsvError>)
      modifies this
      ensures ParseCsv(text).Success? ==> err == None && strings == ParseCsv(text).value
      ensures ParseCsv(text).Failure? ==> err == Some(ParseCsv(text).error) && strings == old(strings)
    {
      var res := ParseCsvData(text);
      match res {
        case Success(records) =>
          strings := records;
          err := None;
        case Failure(e) =>
          err := Some(e);
      }
    }

    /** `clearData`: back to the initial, empty list of strings. */
    method Clear()
      modifies this
      ensures strings == []
    {
      strings := [];
    }

    /**
     * `exportCSV`: nothing when the store is empty; otherwise the header line, then one line
     * per record, each line followed by a line break.
     */
    method ExportCsv() returns (csv: Option<string>)
      ensures strings == [] <==> csv.None?
      ensures csv.Some? ==> csv.value == CsvText(strings)
    {
      if |strings| == 0 {
        return None;  // "No translation data to export"
      }
      var text := ExportHeader + [LineBreak];
      CsvTextEmpty(strings[..0]);
      var i := 0;
      while i < |strings|
        invariant 0 <= i <= |strings|
        invariant text == CsvText(strings[..i])
      {
        var line := ExportRow(strings[i]);
        text := text + line + [LineBreak];
        CsvTextSnoc(strings, i);
        i := i + 1;
      }
      assert strings[..i] == strings;
      csv := Some(text);
    }

    /** The line one record contributes: the quoted identifier, then each value escaped and quoted. */
    static method ExportRow(r: Record) returns (line: string)
      ensures line == RowText(r)
    {
      line := [Quote] + r.id + [Quote];
      var j := 0;
      while j < |LanguageOrder|
        invariant 0 <= j <= |LanguageOrder|
        invariant line == IdCell(r.id) + LanguageCells(r, LanguageOrder[..j])
      {
        var translation := ExportValue(r, LanguageOrder[j]);  // `str[lang] || ''`
        line := line + [Comma] + [Quote] + Escape(translation) + [Quote];
        LanguageCellsStep(r, LanguageOrder, j, IdCell(r.id));
        j := j + 1;
      }
      assert LanguageOrder[..j] == LanguageOrder;
    }

    /**
     * `updateStats`: the number of records, of languages in use, of filled cells and of
     * missing cells, counted over every record and the seven supported languages.
     */
    method Statistics() returns (keys: nat, languages: nat, total: nat, missing: nat)
      ensures keys == |strings|
      ensures languages == |UsedLanguages(strings)|
      ensures total == FilledCells(strings) && missing == MissingCells(strings)
      ensures total + missing == keys * |LanguageOrder|
      ensures total == 0 <==> languages == 0
    {
      var used := UsedSet();
      total := 0;
      missing := 0;
      var i := 0;
      while i < |strings|
        invariant 0 <= i <= |strings|
        invariant total == FilledCells(strings[..i]) && missing == MissingCells(strings[..i])
      {
        var r := strings[i];
        var j := 0;
        while j < |LanguageOrder|
          invariant 0 <= j <= |LanguageOrder|
          invariant total == FilledCells(strings[..i]) + FilledIn(r, LanguageOrder[..j])
          invariant missing == MissingCells(strings[..i]) + MissingIn(r, LanguageOrder[..j])
        {
          var l := LanguageOrder[j];
          assert LanguageOrder[..j + 1][..j] == LanguageOrder[..j];
          if l in r.tr && r.tr[l] != "" {
            total := total + 1;
          } else {
            missing := missing + 1;
          }
          j := j + 1;
        }
        assert LanguageOrder[..j] == LanguageOrder;
        assert strings[..i + 1][..i] == strings[..i];
        i := i + 1;
      }
      assert strings[..i] == strings;
      keys := |strings|;
      languages := |used|;
      CellsAddUp(strings);
      NoTranslations(strings);
    }

    /** The set of languages some record fills, built record by record as both panels do. */
    method UsedSet() returns (used: set<Lang>)
      ensures used == UsedLanguages(strings)
    {
      used := {};
      var i := 0;
      while i < |strings|
        invariant 0 <= i <= |strings|
        invariant used == UsedLanguages(strings[..i])
      {
        var r := strings[i];
        var j := 0;
        while j < |LanguageOrder|
          invariant 0 <= j <= |LanguageOrder|
          invariant used == UsedLanguages(strings[..i]) + FilledLanguages(r, LanguageOrder[..j])
        {
          var l := LanguageOrder[j];
          assert LanguageOrder[..j + 1] == LanguageOrder[..j] + [l];
          if l in r.tr && r.tr[l] != "" {
            used := used + {l};
          }
          j := j + 1;
        }
        assert LanguageOrder[..j] == LanguageOrder;
        assert strings[..i + 1] == strings[..i] + [r];
        UsedLanguagesSnoc(strings[..i], r);
        i := i + 1;
      }
      assert strings[..i] == strings;
    }

    /**
     * `updateLanguageList`: the languages in use, each once, in canonical order, so the list is
     * as long as the statistics panel's language count.
     */
    method LanguageList() returns (list: seq<Lang>)
      ensures list == CanonicalOrder(UsedLanguages(strings))
      ensures forall l :: l in list <==> exists i :: 0 <= i < |strings| && Filled(strings[i], l)
      ensures InCanonicalOrder(list)
      ensures |list| == |UsedLanguages(strings)|
    {
      var used := UsedSet();
      list := Filter(LanguageOrder, used);
      CanonicalOrderListsPresent(used);
      LanguageOrderComplete();
    }
  }
}
