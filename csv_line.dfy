/**
 * The quote-aware tokenizer for one CSV line (`parseCSVLine`, script.js:127-153).
 *
 * The tokenizer is a machine with one bit of state, "inside quotes". A `"` outside quotes
 * opens a quoted span; inside quotes, `""` stands for one literal `"` and any other `"`
 * closes the span. A comma separates fields only outside quotes. Every other character,
 * including a comma inside quotes, goes into the current field.
 */
module CsvLine {
  import opened Text

  const Quote: char := '"'
  const Comma: char := ','

  /**
   * The rest of the tokenizer's run on the unread text `rest`, given the field collected so
   * far (`cur`), the quote state and the fields already finished (`acc`).
   */
  function Scan(rest: string, cur: string, inQuotes: bool, acc: seq<string>): seq<string>
    decreases |rest|
  {
    if rest == [] then acc + [cur]
    else if rest[0] == Quote then
      if inQuotes && |rest| > 1 && rest[1] == Quote then Scan(rest[2..], cur + [Quote], inQuotes, acc)
      else Scan(rest[1..], cur, !inQuotes, acc)
    else if rest[0] == Comma && !inQuotes then Scan(rest[1..], [], inQuotes, acc + [cur])
    else Scan(rest[1..], cur + [rest[0]], inQuotes, acc)
  }

  /**
   * The scan adds only quotes of its own: a character other than the quote that is in
   * neither the input, the current field nor the finished fields is in no field.
   */
  lemma {:induction false} ScanAvoids(rest: string, cur: string, inQuotes: bool, acc: seq<string>, c: char)
    requires c != Quote && c !in rest && c !in cur
    requires forall k :: 0 <= k < |acc| ==> c !in acc[k]
    ensures forall k :: 0 <= k < |Scan(rest, cur, inQuotes, acc)| ==> c !in Scan(rest, cur, inQuotes, acc)[k]
    decreases |rest|
  {
    if rest == [] {
    } else if rest[0] == Quote {
      if inQuotes && |rest| > 1 && rest[1] == Quote {
        ScanAvoids(rest[2..], cur + [Quote], inQuotes, acc, c);
      } else {
        ScanAvoids(rest[1..], cur, !inQuotes, acc, c);
      }
    } else if rest[0] == Comma && !inQuotes {
      ScanAvoids(rest[1..], [], inQuotes, acc + [cur], c);
    } else {
      ScanAvoids(rest[1..], cur + [rest[0]], inQuotes, acc, c);
    }
  }

  /** The fields of a line. */
  function Tokenize(line: string): seq<string>
  {
    Scan(line, [], false, [])
  }

  /** A character other than the quote that a line lacks is in none of its fields. */
  lemma TokenizeAvoids(line: string, c: char)
    requires c != Quote && c !in line
    ensures forall k :: 0 <= k < |Tokenize(line)| ==> c !in Tokenize(line)[k]
  {
    ScanAvoids(line, [], false, [], c);
  }

  /**
   * The number of commas in `rest` that the tokenizer reads while outside quotes, given the
   * quote state at the start. Only the quote state is followed; no field is built.
   */
  function Separators(rest: string, inQuotes: bool): nat
    decreases |rest|
  {
    if rest == [] then 0
    else if rest[0] == Quote then
      if inQuotes && |rest| > 1 && rest[1] == Quote then Separators(rest[2..], inQuotes)
      else Separators(rest[1..], !inQuotes)
    else if rest[0] == Comma && !inQuotes then 1 + Separators(rest[1..], inQuotes)
    else Separators(rest[1..], inQuotes)
  }

  /** `parseCSVLine`: one pass over the line with a mutable field, quote flag and result. */
  method ParseLine(line: string) returns (fields: seq<string>)
    ensures fields == Tokenize(line)
    ensures |fields| == Separators(line, false) + 1
  {
    fields := [];
    var current: string := [];
    var inQuotes := false;
    var i := 0;
    while i < |line|
      invariant 0 <= i <= |line|
      invariant Scan(line[i..], current, inQuotes, fields) == Tokenize(line)
    {
      var c := line[i];
      assert line[i..][0] == c && line[i..][1..] == line[i + 1..];
      if c == Quote {
        if inQuotes && i + 1 < |line| && line[i + 1] == Quote {
          assert line[i..][2..] == line[i + 2..];
          current := current + [Quote];
          i := i + 1;  // skip the second quote of the pair
        } else {
          inQuotes := !inQuotes;
        }
      } else if c == Comma && !inQuotes {
        fields := fields + [current];
        current := [];
      } else {
        current := current + [c];
      }
      i := i + 1;
    }
    fields := fields + [current];
    TokenizeCount(line);
  }

  /** Every separator read outside quotes ends exactly one field. */
  lemma {:induction false} ScanCount(rest: string, cur: string, inQuotes: bool, acc: seq<string>)
    ensures |Scan(rest, cur, inQuotes, acc)| == |acc| + Separators(rest, inQuotes) + 1
    decreases |rest|
  {
    if rest == [] {
    } else if rest[0] == Quote {
      if inQuotes && |rest| > 1 && rest[1] == Quote {
        ScanCount(rest[2..], cur + [Quote], inQuotes, acc);
      } else {
        ScanCount(rest[1..], cur, !inQuotes, acc);
      }
    } else if rest[0] == Comma && !inQuotes {
      ScanCount(rest[1..], [], inQuotes, acc + [cur]);
    } else {
      ScanCount(rest[1..], cur + [rest[0]], inQuotes, acc);
    }
  }

  /** A line always has at least one field, and one more field than unquoted commas. */
  lemma TokenizeCount(line: string)
    ensures |Tokenize(line)| == Separators(line, false) + 1
    ensures |Tokenize(line)| >= 1
  {
    ScanCount(line, [], false, []);
  }

  /** The number of quote characters in all the fields together. */
  function QuotesIn(fields: seq<string>): nat
  {
    if fields == [] then 0
    else QuotesIn(fields[..|fields| - 1]) + Occurrences(fields[|fields| - 1], Quote)
  }

  /**
   * The number of doubled quotes `""` in `rest` that the tokenizer reads while inside quotes,
   * given the quote state at the start: each stands for one literal quote in a field.
   */
  function EscapedPairs(rest: string, inQuotes: bool): nat
    decreases |rest|
  {
    if rest == [] then 0
    else if rest[0] == Quote then
      if inQuotes && |rest| > 1 && rest[1] == Quote then 1 + EscapedPairs(rest[2..], inQuotes)
      else EscapedPairs(rest[1..], !inQuotes)
    else EscapedPairs(rest[1..], inQuotes)
  }

  /** Every quote in the fields comes from a doubled quote read inside quotes, and each such pair gives one. */
  lemma {:induction false} ScanQuotes(rest: string, cur: string, inQuotes: bool, acc: seq<string>)
    ensures QuotesIn(Scan(rest, cur, inQuotes, acc))
            == QuotesIn(acc) + Occurrences(cur, Quote) + EscapedPairs(rest, inQuotes)
    decreases |rest|
  {
    if rest == [] {
      assert (acc + [cur])[..|acc|] == acc;
    } else if rest[0] == Quote {
      if inQuotes && |rest| > 1 && rest[1] == Quote {
        OccurrencesAppend(cur, [Quote], Quote);
        ScanQuotes(rest[2..], cur + [Quote], inQuotes, acc);
      } else {
        ScanQuotes(rest[1..], cur, !inQuotes, acc);
      }
    } else if rest[0] == Comma && !inQuotes {
      assert (acc + [cur])[..|acc|] == acc;
      ScanQuotes(rest[1..], [], inQuotes, acc + [cur]);
    } else {
      OccurrencesAppend(cur, [rest[0]], Quote);
      ScanQuotes(rest[1..], cur + [rest[0]], inQuotes, acc);
    }
  }

  /** Each doubled quote counted uses up two quote characters of the text. */
  lemma {:induction false} EscapedPairsBound(rest: string, inQuotes: bool)
    ensures 2 * EscapedPairs(rest, inQuotes) <= Occurrences(rest, Quote)
    decreases |rest|
  {
    if rest != [] {
      assert rest == [rest[0]] + rest[1..];
      OccurrencesAppend([rest[0]], rest[1..], Quote);
      if rest[0] == Quote && inQuotes && |rest| > 1 && rest[1] == Quote {
        assert rest[1..] == [rest[1]] + rest[2..];
        OccurrencesAppend([rest[1]], rest[2..], Quote);
        EscapedPairsBound(rest[2..], inQuotes);
      } else if rest[0] == Quote {
        EscapedPairsBound(rest[1..], !inQuotes);
      } else {
        EscapedPairsBound(rest[1..], inQuotes);
      }
    }
  }

  /**
   * A quote reaches the fields only as the one `"` that a doubled `""` inside a quoted span
   * stands for: the fields hold exactly one quote per such pair, so at most half as many
   * quotes as the line.
   */
  lemma TokenizeQuotes(line: string)
    ensures QuotesIn(Tokenize(line)) == EscapedPairs(line, false)
    ensures 2 * QuotesIn(Tokenize(line)) <= Occurrences(line, Quote)
  {
    ScanQuotes(line, [], false, []);
    EscapedPairsBound(line, false);
  }

  /** A doubled quote outside a quoted span gives no quote: `a""b` reads as the one field `ab`. */
  lemma DoubledQuoteOutside()
    ensures Tokenize("a\"\"b") == ["ab"]
  {
    var line := "a\"\"b";
    var none: string := [];
    assert line[1..] == "\"\"b" && line[1..][1..] == "\"b" && line[1..][2..] == "b";
    assert none + [line[0]] == "a" && "a" + [line[1..][2..][0]] == "ab";
    assert Scan(line, none, false, []) == Scan(line[1..], "a", false, []);
    assert Scan(line[1..], "a", false, []) == Scan(line[1..][1..], "a", true, []);
    assert Scan(line[1..][1..], "a", true, []) == Scan(line[1..][2..], "a", false, []);
    assert Scan(line[1..][2..], "a", false, []) == Scan([], "ab", false, []);
  }

  /** A line without quotes yields fields without quotes. */
  lemma TokenizeNoQuotes(line: string, k: nat)
    requires Quote !in line
    requires k < |Tokenize(line)|
    ensures Quote !in Tokenize(line)[k]
  {
    var fs := Tokenize(line);
    TokenizeQuotes(line);
    OccurrencesNone(line, Quote);
    QuotesInBound(fs, k);
    OccurrencesNone(fs[k], Quote);
  }

  lemma {:induction false} QuotesInBound(fields: seq<string>, k: nat)
    requires k < |fields|
    ensures Occurrences(fields[k], Quote) <= QuotesIn(fields)
    decreases |fields|
  {
    if k < |fields| - 1 {
      QuotesInBound(fields[..|fields| - 1], k);
    }
  }

  /** Outside quotes, text without quotes or commas simply extends the current field. */
  lemma {:induction false} ScanPlain(a: string, rest: string, cur: string, acc: seq<string>)
    requires Quote !in a && Comma !in a
    ensures Scan(a + rest, cur, false, acc) == Scan(rest, cur + a, false, acc)
    decreases |a|
  {
    if a == [] {
      assert a + rest == rest && cur + a == cur;
    } else {
      assert (a + rest)[0] == a[0] && (a + rest)[1..] == a[1..] + rest;
      ScanPlain(a[1..], rest, cur + [a[0]], acc);
      assert cur + [a[0]] + a[1..] == cur + a;
    }
  }

  /** A line without quotes is split at every comma, exactly as `split(',')` would. */
  lemma {:induction false} ScanQuoteFree(rest: string, cur: string, acc: seq<string>)
    requires Quote !in rest
    ensures Scan(rest, cur, false, acc) == acc + SplitFrom(rest, Comma, cur)
    decreases |rest|
  {
    if rest != [] {
      ScanQuoteFree(rest[1..], if rest[0] == Comma then [] else cur + [rest[0]],
                    if rest[0] == Comma then acc + [cur] else acc);
    }
  }

  lemma TokenizeQuoteFree(line: string)
    requires Quote !in line
    ensures Tokenize(line) == Split(line, Comma)
  {
    ScanQuoteFree(line, [], []);
  }

  /** `s.replace(/"/g, '""')`: every quote doubled. */
  function Escape(s: string): (r: string)
    ensures |r| == |s| + Occurrences(s, Quote)
  {
    if s == [] then []
    else (if s[0] == Quote then [Quote, Quote] else [s[0]]) + Escape(s[1..])
  }

  /** A field written for export: escaped and wrapped in quotes. */
  function QuotedField(s: string): string
  {
    [Quote] + Escape(s) + [Quote]
  }

  /** Escaping changes nothing in a string without quotes. */
  lemma {:induction false} EscapeQuoteFree(s: string)
    requires Quote !in s
    ensures Escape(s) == s
  {
    if s != [] {
      EscapeQuoteFree(s[1..]);
      assert s == [s[0]] + s[1..];
    }
  }

  /**
   * Inside quotes, an escaped string followed by a closing quote is read back as the string
   * itself, after which the tokenizer is outside quotes again. The closing quote must not
   * be followed by another quote, or the pair would read as an escaped quote.
   */
  lemma {:induction false} ScanEscaped(s: string, rest: string, cur: string, acc: seq<string>)
    requires rest == [] || rest[0] != Quote
    ensures Scan(Escape(s) + [Quote] + rest, cur, true, acc) == Scan(rest, cur + s, false, acc)
    decreases |s|
  {
    var text := Escape(s) + [Quote] + rest;
    if s == [] {
      assert text == [Quote] + rest;
      assert text[1..] == rest;
      assert cur + s == cur;
    } else if s[0] == Quote {
      assert text == [Quote, Quote] + (Escape(s[1..]) + [Quote] + rest);
      assert text[2..] == Escape(s[1..]) + [Quote] + rest;
      ScanEscaped(s[1..], rest, cur + [Quote], acc);
      assert cur + [Quote] + s[1..] == cur + s;
    } else {
      assert text == [s[0]] + (Escape(s[1..]) + [Quote] + rest);
      assert text[1..] == Escape(s[1..]) + [Quote] + rest;
      ScanEscaped(s[1..], rest, cur + [s[0]], acc);
      assert cur + [s[0]] + s[1..] == cur + s;
    }
  }

  /**
   * Escaping round-trips per field: a quoted, escaped string is read back as exactly one
   * field equal to the string, whatever quotes or commas it holds (the empty string too).
   */
  lemma FieldRoundTrip(s: string)
    ensures Tokenize(QuotedField(s)) == [s]
  {
    var line := QuotedField(s);
    assert line[0] == Quote && line[1..] == Escape(s) + [Quote] + [];
    assert Tokenize(line) == Scan(line[1..], [], true, []);
    var none: string := [];
    ScanEscaped(s, none, none, []);
    assert none + s == s;
    assert Scan(none, s, false, []) == [s];
  }
}
