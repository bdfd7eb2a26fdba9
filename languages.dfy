/**
 * The fixed language configuration of the converter: the seven supported languages, the
 * spreadsheet column labels that name them, and the canonical order used for export and
 * for every listing.
 */
module Languages {
  import opened Wrappers

  datatype Lang = En | De | Es | Fr | It | Br | Ru

  /** The canonical language order; also the key order of the supported-language table. */
  const LanguageOrder: seq<Lang> := [En, De, Es, Fr, It, Br, Ru]

  /** The spreadsheet column label of a language. */
  function ColumnLabel(l: Lang): string
  {
    match l
    case En => "EN"
    case De => "DE"
    case Es => "ES"
    case Fr => "FR"
    case It => "IT"
    case Br => "BR PT"
    case Ru => "RU"
  }

  /** The column map: the seven spreadsheet column labels and the languages they name. */
  const ColumnMap: map<string, Lang> :=
    map["EN" := En, "DE" := De, "ES" := Es, "FR" := Fr, "IT" := It, "BR PT" := Br, "RU" := Ru]

  /** `csvColumnMap[header]`: the language a (trimmed) header label stands for, if any. */
  function HeaderLanguage(header: string): Option<Lang>
  {
    if header in ColumnMap then Some(ColumnMap[header]) else None
  }

  /**
   * The column map sends a label to a language exactly when the label is that language's
   * column label: only the exact seven labels are recognised.
   */
  lemma HeaderLanguageMeaning(header: string, l: Lang)
    ensures HeaderLanguage(header) == Some(l) <==> header == ColumnLabel(l)
  {
    if header == ColumnLabel(l) {
      match l
      case En => assert header == "EN";
      case De => assert header == "DE";
      case Es => assert header == "ES";
      case Fr => assert header == "FR";
      case It => assert header == "IT";
      case Br => assert header == "BR PT";
      case Ru => assert header == "RU";
    }
  }

  /** A column label holds no quote, comma, line break or surrounding blank. */
  lemma ColumnLabelPlain(l: Lang)
    ensures '"' !in ColumnLabel(l) && ',' !in ColumnLabel(l) && '\n' !in ColumnLabel(l)
    ensures ColumnLabel(l) != [] && ColumnLabel(l)[0] != ' ' && ColumnLabel(l)[|ColumnLabel(l)| - 1] != ' '
  {
  }

  /** The place of a language in the canonical order. */
  function Position(l: Lang): (p: nat)
    ensures p < |LanguageOrder| && LanguageOrder[p] == l
  {
    match l
    case En => 0
    case De => 1
    case Es => 2
    case Fr => 3
    case It => 4
    case Br => 5
    case Ru => 6
  }

  /** The canonical order lists every language exactly once. */
  lemma LanguageOrderComplete()
    ensures forall l :: l in LanguageOrder
    ensures forall i, j :: 0 <= i < j < |LanguageOrder| ==> LanguageOrder[i] != LanguageOrder[j]
    ensures forall i :: 0 <= i < |LanguageOrder| ==> Position(LanguageOrder[i]) == i
  {
    forall l ensures l in LanguageOrder {
      assert LanguageOrder[Position(l)] == l;
    }
  }
}
