/**
 * The shape check of the JSON import (`handleJSONImport`, script.js:60): a parsed document is
 * taken as a game translation document when `stringresources.strings.string` can be reached
 * through object members and is truthy in the JavaScript sense. Nothing else is checked; in
 * particular `string` need not be an array.
 *
 * The document is an abstract JSON tree: the text syntax and `JSON.parse` are not modelled.
 */
module JsonShape {
  import opened Wrappers

  /** A parsed JSON value. Numbers are reals: `JSON.parse` yields no NaN, and -0 is falsy like 0. */
  datatype Json =
    | JNull
    | JBool(b: bool)
    | JNum(n: real)
    | JStr(s: string)
    | JArr(items: seq<Json>)
    | JObj(members: map<string, Json>)

  /** JavaScript truthiness: `null`, `false`, `0` and `""` are falsy; arrays and objects never are. */
  predicate Truthy(j: Json) {
    match j
    case JNull => false
    case JBool(b) => b
    case JNum(n) => n != 0.0
    case JStr(s) => s != ""
    case JArr(_) => true
    case JObj(_) => true
  }

  /** The three ways the check at line 60 can end. */
  datatype ShapeOutcome =
    | Accepted            // the document replaces the store
    | InvalidStructure    // "Invalid JSON structure. Expected game translation format."
    | NullDocument        // reading a member of `null` throws before the check completes

  /** `v.key` for a non-null value: the member of an object, `undefined` (None) otherwise. */
  function Member(v: Json, key: string): Option<Json>
  {
    if v.JObj? && key in v.members then Some(v.members[key]) else None
  }

  /** `undefined` is falsy; a present value is truthy as its value is. */
  predicate Present(v: Option<Json>) {
    v.Some? && Truthy(v.value)
  }

  /**
   * `jsonData.stringresources && jsonData.stringresources.strings &&
   * jsonData.stringresources.strings.string`, evaluated left to right with short circuit.
   */
  function CheckShape(doc: Json): ShapeOutcome
  {
    if doc.JNull? then NullDocument
    else
      var resources := Member(doc, "stringresources");
      if !Present(resources) then InvalidStructure
      else
        var strings := Member(resources.value, "strings");
        if !Present(strings) then InvalidStructure
        else
          var list := Member(strings.value, "string");
          if !Present(list) then InvalidStructure
          else Accepted
  }

  /** Following a path of object members; None as soon as a step is not an object member. */
  function Lookup(v: Json, path: seq<string>): Option<Json>
    decreases |path|
  {
    if path == [] then Some(v)
    else match Member(v, path[0])
      case None => None
      case Some(w) => Lookup(w, path[1..])
  }

  /** The path the check follows. */
  const GamePath: seq<string> := ["stringresources", "strings", "string"]

  /**
   * The check accepts exactly the documents in which the game path leads, through objects,
   * to a truthy value; `null` alone fails with a thrown error rather than the check's own.
   */
  lemma CheckShapeMeaning(doc: Json)
    ensures CheckShape(doc) == Accepted <==> Present(Lookup(doc, GamePath))
    ensures CheckShape(doc) == NullDocument <==> doc == JNull
  {
    var p := GamePath;
    assert p[0] == "stringresources" && p[1..][0] == "strings" && p[1..][1..][0] == "string";
    assert p[1..][1..][1..] == [];
    match Member(doc, p[0]) {
      case None =>
      case Some(w) =>
        match Member(w, p[1..][0]) {
          case None =>
          case Some(x) =>
            assert Lookup(doc, p) == Lookup(x, p[1..][1..]);
            match Member(x, p[1..][1..][0]) {
              case None =>
              case Some(y) =>
                assert Lookup(doc, p) == Some(y);
            }
        }
    }
  }

  /** The document the page starts with, and the one it exports: an empty list of strings. */
  function DocumentOf(list: Json): Json
  {
    JObj(map["stringresources" := JObj(map["strings" := JObj(map["string" := list])])])
  }

  /**
   * Only the truthiness of the leaf is checked: an empty array is accepted (so the page's
   * initial document passes), and so is any non-empty string, a non-zero number or `true`,
   * although none of them is a list of records; an empty string, `0`, `false` or `null` there
   * is refused.
   */
  lemma LeafOnlyTruthy(list: Json)
    ensures CheckShape(DocumentOf(list)) == Accepted <==> Truthy(list)
  {
  }
}
