/** A string record of the resource document: an identifier and its translations. */
module Records {
  import opened Languages

  /**
   * One entry of `stringresources.strings.string`. A language missing from `tr` has no
   * translation; a present language may hold the empty string.
   */
  datatype Record = Record(id: string, tr: map<Lang, string>)

  /** The record holds a translation that JavaScript treats as truthy: present and non-empty. */
  predicate Filled(r: Record, l: Lang) {
    l in r.tr && r.tr[l] != ""
  }

  /** The text written for a language on export: the translation, or "" when it is missing. */
  function ExportValue(r: Record, l: Lang): (v: string)
    ensures v == "" <==> !Filled(r, l)
  {
    if l in r.tr then r.tr[l] else ""
  }
}
