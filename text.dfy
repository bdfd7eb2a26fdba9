/**
 * The few string operations of the JavaScript runtime that the converter relies on:
 * `String.prototype.trim`, `String.prototype.split` with a one-character separator,
 * `String.prototype.includes`, and the decimal rendering of a line number inside a
 * template literal.
 */
module Text {

  /** The characters `trim` removes: ECMAScript WhiteSpace and LineTerminator code points. */
  predicate IsWhitespace(c: char) {
    c == '\t' || c == '\n' || c == '\U{000B}' || c == '\U{000C}' || c == '\r' || c == ' '
    || c == '\U{00A0}' || c == '\U{1680}' || ('\U{2000}' <= c <= '\U{200A}')
    || c == '\U{2028}' || c == '\U{2029}' || c == '\U{202F}' || c == '\U{205F}'
    || c == '\U{3000}' || c == '\U{FEFF}'
  }

  predicate AllWhitespace(s: string) {
    forall i :: 0 <= i < |s| ==> IsWhitespace(s[i])
  }

  /**
   * `String.prototype.trim`: drops the leading and the trailing whitespace, one character at
   * a time from either end.
   */
  function Trim(s: string): (r: string)
    ensures |r| <= |s|
  {
    if s != [] && IsWhitespace(s[0]) then Trim(s[1..])
    else if s != [] && IsWhitespace(s[|s| - 1]) then Trim(s[..|s| - 1])
    else s
  }

  /** `s` holds `r` at `a`, with blanks only before and after it. */
  predicate CutAt(s: string, r: string, a: nat) {
    a + |r| <= |s| && r == s[a..a + |r|] && AllWhitespace(s[..a]) && AllWhitespace(s[a + |r|..])
  }

  /** A cut of `s[1..]` is one of `s` when the dropped first character is a blank. */
  lemma CutFront(s: string, r: string, a: nat)
    requires s != [] && IsWhitespace(s[0]) && CutAt(s[1..], r, a)
    ensures CutAt(s, r, a + 1)
  {
    assert s[..a + 1] == [s[0]] + s[1..][..a];
    assert s[a + 1 + |r|..] == s[1..][a + |r|..];
  }

  /** A cut of `s` without its last character is one of `s` when that character is a blank. */
  lemma CutBack(s: string, r: string, a: nat)
    requires s != [] && IsWhitespace(s[|s| - 1]) && CutAt(s[..|s| - 1], r, a)
    ensures CutAt(s, r, a)
  {
    var t := s[..|s| - 1];
    assert s[..a] == t[..a];
    assert s[a + |r|..] == t[a + |r|..] + [s[|s| - 1]];
  }

  /** The blanks `trim` drops at the front: `a` of them, and blanks after the result. */
  lemma {:induction false} TrimCut(s: string) returns (a: nat)
    ensures CutAt(s, Trim(s), a)
    decreases |s|
  {
    if s != [] && IsWhitespace(s[0]) {
      var b := TrimCut(s[1..]);
      CutFront(s, Trim(s), b);
      a := b + 1;
    } else if s != [] && IsWhitespace(s[|s| - 1]) {
      a := TrimCut(s[..|s| - 1]);
      CutBack(s, Trim(s), a);
    } else {
      a := 0;
      assert s[|s|..] == [];
    }
  }

  /** `trim` leaves no blank at either end. */
  lemma {:induction false} TrimEnds(s: string)
    ensures Trim(s) == [] || (!IsWhitespace(Trim(s)[0]) && !IsWhitespace(Trim(s)[|Trim(s)| - 1]))
    decreases |s|
  {
    if s != [] && IsWhitespace(s[0]) {
      TrimEnds(s[1..]);
    } else if s != [] && IsWhitespace(s[|s| - 1]) {
      TrimEnds(s[..|s| - 1]);
    }
  }

  /** What `trim` returns: a slice of `s`, blank-free at both ends, cut off only by blanks. */
  lemma TrimSlice(s: string)
    ensures exists a :: 0 <= a && a + |Trim(s)| <= |s| && Trim(s) == s[a..a + |Trim(s)|]
              && AllWhitespace(s[..a]) && AllWhitespace(s[a + |Trim(s)|..])
    ensures Trim(s) == [] || (!IsWhitespace(Trim(s)[0]) && !IsWhitespace(Trim(s)[|Trim(s)| - 1]))
  {
    var a := TrimCut(s);
    assert CutAt(s, Trim(s), a);
    TrimEnds(s);
  }

  /** `trim` adds no character: one missing from the input is missing from the result. */
  lemma TrimAvoids(s: string, c: char)
    requires c !in s
    ensures c !in Trim(s)
  {
    var a := TrimCut(s);
    assert Trim(s) == s[a..a + |Trim(s)|];
  }

  /** A string already free of blanks at both ends is left as it is. */
  lemma TrimTrimmed(s: string)
    requires s == [] || (!IsWhitespace(s[0]) && !IsWhitespace(s[|s| - 1]))
    ensures Trim(s) == s
  {
  }

  /** `trim` yields the empty string exactly for blank-only input. */
  lemma {:induction false} TrimEmpty(s: string)
    ensures Trim(s) == [] <==> AllWhitespace(s)
    decreases |s|
  {
    if s != [] && IsWhitespace(s[0]) {
      TrimEmpty(s[1..]);
      assert AllWhitespace(s) <==> AllWhitespace(s[1..]) by {
        assert s == [s[0]] + s[1..];
      }
    } else if s != [] && IsWhitespace(s[|s| - 1]) {
      TrimEmpty(s[..|s| - 1]);
      assert !AllWhitespace(s[..|s| - 1]) ==> !AllWhitespace(s);
    }
  }

  /**
   * `s.split(sep)` for a one-character separator, scanning left to right with the piece
   * being collected in `cur`.
   */
  function SplitFrom(s: string, sep: char, cur: string): (r: seq<string>)
    ensures |r| >= 1
    decreases |s|
  {
    if s == [] then [cur]
    else if s[0] == sep then [cur] + SplitFrom(s[1..], sep, [])
    else SplitFrom(s[1..], sep, cur + [s[0]])
  }

  function Split(s: string, sep: char): (r: seq<string>)
  {
    SplitFrom(s, sep, [])
  }

  /** `parts.join(sep)`. */
  function Join(parts: seq<string>, sep: char): string
    requires |parts| >= 1
  {
    if |parts| == 1 then parts[0] else parts[0] + [sep] + Join(parts[1..], sep)
  }

  function Occurrences(s: string, c: char): nat
  {
    if s == [] then 0 else (if s[0] == c then 1 else 0) + Occurrences(s[1..], c)
  }

  lemma {:induction false} OccurrencesAppend(a: string, b: string, c: char)
    ensures Occurrences(a + b, c) == Occurrences(a, c) + Occurrences(b, c)
  {
    if a == [] {
      assert a + b == b;
    } else {
      assert (a + b)[0] == a[0] && (a + b)[1..] == a[1..] + b;
      OccurrencesAppend(a[1..], b, c);
    }
  }

  lemma {:induction false} OccurrencesNone(s: string, c: char)
    ensures Occurrences(s, c) == 0 <==> c !in s
  {
    if s != [] {
      OccurrencesNone(s[1..], c);
      assert s == [s[0]] + s[1..];
    }
  }

  lemma {:induction false} SplitFromJoin(s: string, sep: char, cur: string)
    requires sep !in cur
    ensures Join(SplitFrom(s, sep, cur), sep) == cur + s
    ensures |SplitFrom(s, sep, cur)| == Occurrences(s, sep) + 1
    ensures forall i :: 0 <= i < |SplitFrom(s, sep, cur)| ==> sep !in SplitFrom(s, sep, cur)[i]
    decreases |s|
  {
    if s == [] {
    } else if s[0] == sep {
      SplitFromJoin(s[1..], sep, []);
      assert s == [sep] + s[1..];
    } else {
      SplitFromJoin(s[1..], sep, cur + [s[0]]);
      assert cur + s == cur + [s[0]] + s[1..];
    }
  }

  /**
   * `split` cuts at every separator and nowhere else: joining the pieces gives the text
   * back, there is one piece more than there are separators, and no piece holds one.
   */
  lemma SplitJoin(s: string, sep: char)
    ensures Join(Split(s, sep), sep) == s
    ensures |Split(s, sep)| == Occurrences(s, sep) + 1
    ensures forall i :: 0 <= i < |Split(s, sep)| ==> sep !in Split(s, sep)[i]
  {
    SplitFromJoin(s, sep, []);
  }

  /** A piece free of the separator, followed by the separator, is split off whole. */
  lemma {:induction false} SplitFromPiece(a: string, sep: char, cur: string, rest: string)
    requires sep !in a
    ensures SplitFrom(a + [sep] + rest, sep, cur) == [cur + a] + SplitFrom(rest, sep, [])
    decreases |a|
  {
    if a == [] {
      var t := a + [sep] + rest;
      assert t[0] == sep && t[1..] == rest;
      assert cur + a == cur;
    } else {
      assert (a + [sep] + rest)[1..] == a[1..] + [sep] + rest;
      SplitFromPiece(a[1..], sep, cur + [a[0]], rest);
      assert cur + [a[0]] + a[1..] == cur + a;
    }
  }

  /** Text with no separator at all is one piece. */
  lemma {:induction false} SplitFromLast(a: string, sep: char, cur: string)
    requires sep !in a
    ensures SplitFrom(a, sep, cur) == [cur + a]
    decreases |a|
  {
    if a == [] {
      assert cur + a == cur;
    } else {
      SplitFromLast(a[1..], sep, cur + [a[0]]);
      assert cur + [a[0]] + a[1..] == cur + a;
    }
  }

  /** `pat` occurs in `h` starting at position `k`. */
  predicate OccursAt(h: string, pat: string, k: int) {
    0 <= k <= |h| - |pat| && h[k..k + |pat|] == pat
  }

  /** `h.includes(pat)`: some position of `h` starts an occurrence of `pat`. */
  function Includes(h: string, pat: string): (r: bool)
    ensures r <==> exists k :: OccursAt(h, pat, k)
    decreases |h|
  {
    if |h| < |pat| then false
    else if h[..|pat|] == pat then
      assert OccursAt(h, pat, 0);
      true
    else
      var r := Includes(h[1..], pat);
      forall j | OccursAt(h[1..], pat, j) ensures OccursAt(h, pat, j + 1) {
        assert h[1..][j..j + |pat|] == h[j + 1..j + 1 + |pat|];
      }
      forall k | OccursAt(h, pat, k) ensures k >= 1 && OccursAt(h[1..], pat, k - 1) {
        assert h[1..][k - 1..k - 1 + |pat|] == h[k..k + |pat|];
      }
      r
  }

  /** The digit character for `d`. */
  function DigitChar(d: nat): (c: char)
    requires d < 10
  {
    ('0' as int + d) as char
  }

  /** The decimal rendering of `n`, as a template literal shows a line number. */
  function Decimal(n: nat): (r: string)
    ensures r != []
    ensures forall i :: 0 <= i < |r| ==> '0' <= r[i] <= '9'
    decreases n
  {
    if n < 10 then [DigitChar(n)] else Decimal(n / 10) + [DigitChar(n % 10)]
  }

  /** Reads a string of decimal digits back as a number. */
  function DecimalValue(s: string): nat
    requires forall i :: 0 <= i < |s| ==> '0' <= s[i] <= '9'
  {
    if s == [] then 0 else DecimalValue(s[..|s| - 1]) * 10 + (s[|s| - 1] as int - '0' as int)
  }

  lemma {:induction false} DecimalRoundTrip(n: nat)
    ensures DecimalValue(Decimal(n)) == n
    decreases n
  {
    if n >= 10 {
      var s := Decimal(n);
      DecimalRoundTrip(n / 10);
      assert s[..|s| - 1] == Decimal(n / 10);
    }
  }

  /** Different numbers are rendered differently. */
  lemma DecimalInjective(m: nat, n: nat)
    requires Decimal(m) == Decimal(n)
    ensures m == n
  {
    DecimalRoundTrip(m);
    DecimalRoundTrip(n);
  }
}
