/**
 * What the statistics panel and the language list report about the store (`updateStats`,
 * script.js:162-183, and `updateLanguageList`, script.js:185-205): per record and per
 * supported language, a cell is filled when the language is present with a non-empty value
 * and missing otherwise; the languages in use are those filled in some record; the list
 * shows them in the canonical order, not sorted by name.
 */
module Stats {
  import opened Languages
  import opened Records

  /** The number of languages in `langs` that `r` fills. */
  function FilledIn(r: Record, langs: seq<Lang>): nat
  {
    if langs == [] then 0
    else FilledIn(r, langs[..|langs| - 1]) + if Filled(r, langs[|langs| - 1]) then 1 else 0
  }

  /** The number of languages in `langs` that `r` leaves empty. */
  function MissingIn(r: Record, langs: seq<Lang>): nat
  {
    if langs == [] then 0
    else MissingIn(r, langs[..|langs| - 1]) + if Filled(r, langs[|langs| - 1]) then 0 else 1
  }

  /** The filled cells of the records over the seven supported languages. */
  function FilledCells(strings: seq<Record>): nat
  {
    if strings == [] then 0
    else FilledCells(strings[..|strings| - 1]) + FilledIn(strings[|strings| - 1], LanguageOrder)
  }

  /** The missing cells of the records over the seven supported languages. */
  function MissingCells(strings: seq<Record>): nat
  {
    if strings == [] then 0
    else MissingCells(strings[..|strings| - 1]) + MissingIn(strings[|strings| - 1], LanguageOrder)
  }

  /** The languages of `langs` that `r` fills. */
  function FilledLanguages(r: Record, langs: seq<Lang>): set<Lang>
  {
    set l | l in langs && Filled(r, l)
  }

  /** The languages in use: those some record fills. */
  function UsedLanguages(strings: seq<Record>): set<Lang>
  {
    set l | l in LanguageOrder && exists i :: 0 <= i < |strings| && Filled(strings[i], l)
  }

  /** Each record contributes one cell per language in `langs`, filled or missing. */
  lemma {:induction false} RecordCellsAddUp(r: Record, langs: seq<Lang>)
    ensures FilledIn(r, langs) + MissingIn(r, langs) == |langs|
    decreases |langs|
  {
    if langs != [] {
      RecordCellsAddUp(r, langs[..|langs| - 1]);
    }
  }

  /** Filled and missing cells together are seven per record. */
  lemma {:induction false} CellsAddUp(strings: seq<Record>)
    ensures FilledCells(strings) + MissingCells(strings) == |strings| * |LanguageOrder|
    decreases |strings|
  {
    if strings != [] {
      CellsAddUp(strings[..|strings| - 1]);
      RecordCellsAddUp(strings[|strings| - 1], LanguageOrder);
    }
  }

  /** A record fills none of `langs` exactly when it contributes no filled cell for them. */
  lemma {:induction false} FilledInZero(r: Record, langs: seq<Lang>)
    ensures FilledIn(r, langs) == 0 <==> FilledLanguages(r, langs) == {}
    decreases |langs|
  {
    if langs != [] {
      var init := langs[..|langs| - 1];
      var l := langs[|langs| - 1];
      FilledInZero(r, init);
      assert FilledLanguages(r, langs) == FilledLanguages(r, init) + (if Filled(r, l) then {l} else {});
    }
  }

  /** The languages in use grow record by record. */
  lemma UsedLanguagesSnoc(strings: seq<Record>, r: Record)
    ensures UsedLanguages(strings + [r]) == UsedLanguages(strings) + FilledLanguages(r, LanguageOrder)
  {
    var s := strings + [r];
    forall l | l in UsedLanguages(s) ensures l in UsedLanguages(strings) + FilledLanguages(r, LanguageOrder) {
      var i :| 0 <= i < |s| && Filled(s[i], l);
      if i < |strings| {
        assert Filled(strings[i], l);
      }
    }
    forall l | l in UsedLanguages(strings) ensures l in UsedLanguages(s) {
      var i :| 0 <= i < |strings| && Filled(strings[i], l);
      assert Filled(s[i], l);
    }
    forall l | l in FilledLanguages(r, LanguageOrder) ensures l in UsedLanguages(s) {
      assert Filled(s[|strings|], l);
    }
  }

  /** No translation is counted exactly when no language is in use. */
  lemma {:induction false} NoTranslations(strings: seq<Record>)
    ensures FilledCells(strings) == 0 <==> UsedLanguages(strings) == {}
    decreases |strings|
  {
    if strings == [] {
      assert UsedLanguages(strings) == {};
    } else {
      var init := strings[..|strings| - 1];
      var r := strings[|strings| - 1];
      NoTranslations(init);
      FilledInZero(r, LanguageOrder);
      assert init + [r] == strings;
      UsedLanguagesSnoc(init, r);
    }
  }

  /** `csvLanguageOrder.filter(lang => present.has(lang))`: `order` restricted to `present`. */
  function Filter(order: seq<Lang>, present: set<Lang>): seq<Lang>
  {
    if order == [] then []
    else (if order[0] in present then [order[0]] else []) + Filter(order[1..], present)
  }

  /** The listed languages: the languages in use, in canonical order. */
  function CanonicalOrder(present: set<Lang>): seq<Lang>
  {
    Filter(LanguageOrder, present)
  }

  /** The filter keeps exactly the elements of `order` that are in `present`. */
  lemma {:induction false} FilterMembers(order: seq<Lang>, present: set<Lang>)
    ensures forall l :: l in Filter(order, present) <==> l in order && l in present
    decreases |order|
  {
    if order != [] {
      FilterMembers(order[1..], present);
      var f := Filter(order, present);
      assert f == (if order[0] in present then [order[0]] else []) + Filter(order[1..], present);
      forall l ensures l in f <==> l in order && l in present {
        assert l in order <==> l == order[0] || l in order[1..];
      }
    }
  }

  /** Languages listed in strictly increasing canonical position. */
  predicate InCanonicalOrder(s: seq<Lang>) {
    forall a, b :: 0 <= a < b < |s| ==> Position(s[a]) < Position(s[b])
  }

  /** The filter keeps the order of what it keeps. */
  lemma {:induction false} FilterOrdered(order: seq<Lang>, present: set<Lang>)
    requires InCanonicalOrder(order)
    ensures InCanonicalOrder(Filter(order, present))
    decreases |order|
  {
    if order != [] {
      var tail := Filter(order[1..], present);
      FilterOrdered(order[1..], present);
      FilterMembers(order[1..], present);
      if order[0] in present {
        var f := Filter(order, present);
        assert f == [order[0]] + tail;
        forall a, b | 0 <= a < b < |f| ensures Position(f[a]) < Position(f[b]) {
          if a == 0 {
            assert f[b] == tail[b - 1] && tail[b - 1] in order[1..];
            var j :| 0 <= j < |order[1..]| && order[1..][j] == tail[b - 1];
            assert order[j + 1] == f[b];
          } else {
            assert f[a] == tail[a - 1] && f[b] == tail[b - 1];
          }
        }
      }
    }
  }

  /** The tail of an ordered list is ordered and does not hold its head. */
  lemma OrderedTail(s: seq<Lang>)
    requires s != [] && InCanonicalOrder(s)
    ensures InCanonicalOrder(s[1..]) && s[0] !in s[1..]
  {
    forall j | 0 <= j < |s| - 1 ensures s[1..][j] != s[0] {
      assert Position(s[0]) < Position(s[j + 1]);
    }
  }

  /** The entries of a non-empty list: its head and the entries of its tail. */
  lemma EntriesCons(s: seq<Lang>)
    requires s != []
    ensures (set l | l in s) == (set l | l in s[1..]) + {s[0]}
  {
    assert s == [s[0]] + s[1..];
  }

  /** An ordered list repeats no language, so it has as many entries as the set of its entries. */
  lemma {:induction false} DistinctCard(s: seq<Lang>)
    requires InCanonicalOrder(s)
    ensures |set l | l in s| == |s|
    decreases |s|
  {
    if s != [] {
      OrderedTail(s);
      DistinctCard(s[1..]);
      EntriesCons(s);
    }
  }

  /**
   * The language list: it holds each language of `present` once, nothing else, and in
   * canonical order, so it has as many entries as `present` has elements.
   */
  lemma CanonicalOrderListsPresent(present: set<Lang>)
    ensures forall l :: l in CanonicalOrder(present) <==> l in present
    ensures InCanonicalOrder(CanonicalOrder(present))
    ensures |CanonicalOrder(present)| == |present|
  {
    var list := CanonicalOrder(present);
    LanguageOrderComplete();
    FilterMembers(LanguageOrder, present);
    FilterOrdered(LanguageOrder, present);
    DistinctCard(list);
    assert (set l | l in list) == present;
  }
}
