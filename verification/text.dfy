/** The string operations of Rust's `str` that the command parsers and the
    reply serialiser rely on: `trim`, `eq_ignore_ascii_case`, the
    `to_uppercase` comparison of `TransferType::from_str`, `split_once`,
    `replace`, and decimal formatting with `{}` and `{:>w}`. */
module Text {
  import opened Wrappers

  // ---------------------------------------------------------------------
  // Whitespace and trimming
  // ---------------------------------------------------------------------

  /** Rust's `char::is_whitespace`: the Unicode White_Space property. */
  predicate IsWhitespace(c: char) {
    || ('\t' <= c <= '\r')           // tab, line feed, vertical tab, form feed, carriage return
    || c == ' '
    || c == '\U{0085}' || c == '\U{00A0}' || c == '\U{1680}'
    || ('\U{2000}' <= c <= '\U{200A}')
    || c == '\U{2028}' || c == '\U{2029}' || c == '\U{202F}' || c == '\U{205F}'
    || c == '\U{3000}'
  }

  /** Rust's `str::trim` is `trim_matches(char::is_whitespace)`: the
      trimming functions and their laws are stated for any character class
      `blank`, and instantiated with `IsWhitespace`. */
  predicate AllBlank(s: string, blank: char -> bool) {
    forall i :: 0 <= i < |s| ==> blank(s[i])
  }

  /** Neither end of `s` is blank. */
  predicate TrimmedBy(s: string, blank: char -> bool) {
    |s| == 0 || (!blank(s[0]) && !blank(s[|s| - 1]))
  }

  /** `r` is what remains of `s` once its blank ends are cut away: a
      contiguous slice of `s`, everything outside it blank, and no blank at
      either end of it. */
  ghost predicate TrimOfBy(r: string, s: string, blank: char -> bool) {
    exists i, j {:trigger s[i..j]} ::
      && 0 <= i <= j <= |s|
      && r == s[i..j]
      && AllBlank(s[..i], blank)
      && AllBlank(s[j..], blank)
      && TrimmedBy(r, blank)
  }

  /** `str::trim_start_matches`. */
  function TrimStartBy(s: string, blank: char -> bool): string {
    if |s| > 0 && blank(s[0]) then TrimStartBy(s[1..], blank) else s
  }

  /** What `TrimStartBy` leaves is a suffix of its input, the part cut
      away is blank, and what is left does not start with a blank. */
  lemma {:induction false} TrimStartByCuts(s: string, blank: char -> bool)
    ensures var r := TrimStartBy(s, blank);
      && |r| <= |s| && r == s[|s| - |r|..]
      && AllBlank(s[..|s| - |r|], blank)
      && (|r| > 0 ==> !blank(r[0]))
  {
    if |s| > 0 && blank(s[0]) {
      TrimStartByCuts(s[1..], blank);
      var r := TrimStartBy(s, blank);
      assert s[..|s| - |r|] == [s[0]] + s[1..][..|s| - 1 - |r|];
    }
  }

  /** `str::trim_end_matches`. */
  function TrimEndBy(s: string, blank: char -> bool): string {
    if |s| > 0 && blank(s[|s| - 1]) then TrimEndBy(s[..|s| - 1], blank) else s
  }

  /** What `TrimEndBy` leaves is a prefix of its input, the part cut away
      is blank, and what is left does not end with a blank. */
  lemma {:induction false} TrimEndByCuts(s: string, blank: char -> bool)
    ensures var r := TrimEndBy(s, blank);
      && |r| <= |s| && r == s[..|r|]
      && AllBlank(s[|r|..], blank)
      && (|r| > 0 ==> !blank(r[|r| - 1]))
      && (|s| > 0 && !blank(s[0]) ==> |r| > 0)
  {
    if |s| > 0 && blank(s[|s| - 1]) {
      var t := s[..|s| - 1];
      TrimEndByCuts(t, blank);
      var r := TrimEndBy(s, blank);
      assert s[|r|..] == t[|r|..] + [s[|s| - 1]];
      assert r == t[..|r|] == s[..|r|];
    }
  }

  /** `str::trim_matches`. */
  function TrimBy(s: string, blank: char -> bool): (r: string)
    ensures TrimmedBy(r, blank)
  {
    var a := TrimStartBy(s, blank);
    TrimStartByCuts(s, blank);
    TrimEndByCuts(a, blank);
    var r := TrimEndBy(a, blank);
    assert TrimmedBy(r, blank) by {
      if |r| > 0 { assert r[0] == a[0]; }
    }
    r
  }

  /** What `TrimBy` computes is the trim of its input. */
  lemma TrimByIsTrimOf(s: string, blank: char -> bool)
    ensures TrimOfBy(TrimBy(s, blank), s, blank)
  {
    var a := TrimStartBy(s, blank);
    TrimStartByCuts(s, blank);
    TrimEndByCuts(a, blank);
    var r := TrimEndBy(a, blank);
    var i := |s| - |a|;
    assert s[i..i + |r|] == r;
    assert AllBlank(s[i + |r|..], blank) by { assert s[i + |r|..] == a[|r|..]; }
  }

  /** `TrimOfBy` pins its first argument down: there is one trim of a
      string. */
  lemma TrimOfByUnique(r1: string, r2: string, s: string, blank: char -> bool)
    requires TrimOfBy(r1, s, blank) && TrimOfBy(r2, s, blank)
    ensures r1 == r2
  {
    var i1, j1 :| 0 <= i1 <= j1 <= |s| && r1 == s[i1..j1] && AllBlank(s[..i1], blank)
                  && AllBlank(s[j1..], blank) && TrimmedBy(r1, blank);
    var i2, j2 :| 0 <= i2 <= j2 <= |s| && r2 == s[i2..j2] && AllBlank(s[..i2], blank)
                  && AllBlank(s[j2..], blank) && TrimmedBy(r2, blank);
    BlankOutside(s, blank, i1, j1);
    BlankOutside(s, blank, i2, j2);
    NonBlankInside(s, blank, i1, j1);
    NonBlankInside(s, blank, i2, j2);
    if i1 < j1 && i2 < j2 {
      assert i1 == i2 && j1 == j2;
    }
  }

  /** The ends of a non-empty trimmed slice are not blank. */
  lemma NonBlankInside(s: string, blank: char -> bool, i: nat, j: nat)
    requires i <= j <= |s| && TrimmedBy(s[i..j], blank)
    ensures i < j ==> !blank(s[i]) && !blank(s[j - 1])
  {
    if i < j { assert s[i..j][0] == s[i] && s[i..j][j - i - 1] == s[j - 1]; }
  }

  /** Spells out, index by index, that a string is blank outside `[i, j)`. */
  lemma BlankOutside(s: string, blank: char -> bool, i: nat, j: nat)
    requires i <= j <= |s|
    requires AllBlank(s[..i], blank) && AllBlank(s[j..], blank)
    ensures forall k :: 0 <= k < i || j <= k < |s| ==> blank(s[k])
  {
    forall k | 0 <= k < i || j <= k < |s| ensures blank(s[k]) {
      if k < i { assert s[..i][k] == s[k]; } else { assert s[j..][k - j] == s[k]; }
    }
  }

  /** A string without blank ends is its own trim. */
  lemma TrimByOfTrimmed(s: string, blank: char -> bool)
    requires TrimmedBy(s, blank)
    ensures TrimBy(s, blank) == s
  {
    assert s[0..|s|] == s;
    assert TrimOfBy(s, s, blank);
    TrimByIsTrimOf(s, blank);
    TrimOfByUnique(TrimBy(s, blank), s, s, blank);
  }

  /** The trim is empty exactly when every character is blank. */
  lemma TrimByEmptyIffAllBlank(s: string, blank: char -> bool)
    ensures TrimBy(s, blank) == [] <==> AllBlank(s, blank)
  {
    var a := TrimStartBy(s, blank);
    TrimStartByCuts(s, blank);
    TrimEndByCuts(a, blank);
    BlankOutside(s, blank, |s| - |a|, |s|);
    if |a| > 0 {
      assert a[0] == s[|s| - |a|];
    }
  }

  predicate AllWhitespace(s: string) {
    AllBlank(s, IsWhitespace)
  }

  predicate IsTrimmed(s: string) {
    TrimmedBy(s, IsWhitespace)
  }

  ghost predicate TrimOf(r: string, s: string) {
    TrimOfBy(r, s, IsWhitespace)
  }

  /** Rust's `str::trim`. */
  function Trim(s: string): (r: string)
    ensures IsTrimmed(r)
  {
    TrimBy(s, IsWhitespace)
  }

  /** `trim` cuts exactly the whitespace ends away. */
  lemma TrimIsTrimOf(s: string)
    ensures TrimOf(Trim(s), s)
  {
    TrimByIsTrimOf(s, IsWhitespace);
  }

  /** There is one trim of a string. */
  lemma TrimOfUnique(r1: string, r2: string, s: string)
    requires TrimOf(r1, s) && TrimOf(r2, s)
    ensures r1 == r2
  {
    TrimOfByUnique(r1, r2, s, IsWhitespace);
  }

  /** A string without whitespace ends is its own trim. */
  lemma TrimOfTrimmed(s: string)
    requires IsTrimmed(s)
    ensures Trim(s) == s
  {
    TrimByOfTrimmed(s, IsWhitespace);
  }

  /** Trimming twice is trimming once. */
  lemma TrimIdempotent(s: string)
    ensures Trim(Trim(s)) == Trim(s)
  {
    TrimByOfTrimmed(Trim(s), IsWhitespace);
  }

  /** `s.trim().is_empty()` holds exactly when every character is whitespace. */
  lemma TrimEmptyIffAllWhitespace(s: string)
    ensures Trim(s) == [] <==> AllWhitespace(s)
  {
    TrimByEmptyIffAllBlank(s, IsWhitespace);
  }

  // ---------------------------------------------------------------------
  // Case
  // ---------------------------------------------------------------------

  /** `char::to_ascii_lowercase`: only `A`..`Z` change. */
  function AsciiLower(c: char): (r: char)
    ensures 'A' <= c <= 'Z' ==> 'a' <= r <= 'z' && r as int == c as int + 32
    ensures !('A' <= c <= 'Z') ==> r == c
  {
    if 'A' <= c <= 'Z' then (c as int + 32) as char else c
  }

  /** `str::eq_ignore_ascii_case`. Comparing UTF-8 bytes after lowering the
      ASCII ones is the same as comparing characters after lowering the ASCII
      ones, because lowering never touches a byte of a multi-byte character. */
  predicate EqIgnoreAsciiCase(a: string, b: string) {
    |a| == |b| && forall i :: 0 <= i < |a| ==> AsciiLower(a[i]) == AsciiLower(b[i])
  }

  lemma EqIgnoreAsciiCaseSymmetric(a: string, b: string)
    ensures EqIgnoreAsciiCase(a, b) <==> EqIgnoreAsciiCase(b, a)
  {
  }

  lemma EqIgnoreAsciiCaseTransitive(a: string, b: string, c: string)
    requires EqIgnoreAsciiCase(a, b) && EqIgnoreAsciiCase(b, c)
    ensures EqIgnoreAsciiCase(a, c)
  {
  }

  /** The single capital letter `c.to_uppercase()` yields, when it yields
      one ASCII capital: `a`..`z`, dotless `ı` (U+0131, to `I`) and long `ſ`
      (U+017F, to `S`). Every other character's upper case is not a single
      ASCII capital, and it is returned unchanged, which keeps it apart from
      every ASCII capital. (Characters whose upper case is several
      characters, such as `ß` to `SS` or `ﬁ` to `FI`, never spell one of the
      words this is compared with: see `UppercaseIs`.) */
  function UpperImage(c: char): (r: char)
    ensures 'a' <= c <= 'z' ==> 'A' <= r <= 'Z'
    ensures 'A' <= c <= 'Z' ==> r == c
  {
    if 'a' <= c <= 'z' then (c as int - 32) as char
    else if c == '\U{0131}' then 'I'
    else if c == '\U{017F}' then 'S'
    else c
  }

  predicate IsAsciiCapitals(w: string) {
    forall i :: 0 <= i < |w| ==> 'A' <= w[i] <= 'Z'
  }

  /** `s.to_uppercase() == w` for a word `w` of ASCII capitals in which no
      ligature expansion of Rust's upper-casing (`SS`, `FF`, `FI`, `FL`,
      `FFI`, `FFL`, `ST`) occurs: then every character of `s` must map to
      exactly one character of `w`. */
  predicate UppercaseIs(s: string, w: string) {
    |s| == |w| && forall i :: 0 <= i < |s| ==> UpperImage(s[i]) == w[i]
  }

  /** Upper-case matching ignores ASCII case: every mixed-case spelling of a
      capital word matches it. */
  lemma UppercaseIsIgnoresAsciiCase(s: string, w: string)
    requires IsAsciiCapitals(w)
    requires EqIgnoreAsciiCase(s, w)
    ensures UppercaseIs(s, w)
  {
    forall i | 0 <= i < |s|
      ensures UpperImage(s[i]) == w[i]
    {
      assert AsciiLower(s[i]) == AsciiLower(w[i]);
    }
  }

  // ---------------------------------------------------------------------
  // Splitting and replacing
  // ---------------------------------------------------------------------

  /** `str::split_once` on a character separator. */
  function SplitOnce(s: string, sep: char): (r: Option<(string, string)>)
    ensures r.None? <==> sep !in s
    ensures r.Some? ==> s == r.value.0 + [sep] + r.value.1 && sep !in r.value.0
  {
    if |s| == 0 then None
    else if s[0] == sep then Some(([], s[1..]))
    else match SplitOnce(s[1..], sep)
      case None => None
      case Some((a, b)) => Some(([s[0]] + a, b))
  }

  /** `split_once` cuts at the first separator: text without one, then the
      separator, then anything, splits into exactly those two parts. */
  lemma {:induction false} SplitOnceAt(a: string, sep: char, b: string)
    requires sep !in a
    ensures SplitOnce(a + [sep] + b, sep) == Some((a, b))
  {
    var s := a + [sep] + b;
    if |a| == 0 {
      assert s == [sep] + b;
    } else {
      assert s[0] == a[0] && s[1..] == a[1..] + [sep] + b;
      SplitOnceAt(a[1..], sep, b);
      assert [a[0]] + a[1..] == a;
    }
  }

  /** `str::replace` with a one-character pattern and a one-character
      replacement. */
  function ReplaceChar(s: string, from: char, to: char): (r: string)
    ensures |r| == |s|
    ensures forall i :: 0 <= i < |s| ==> r[i] == if s[i] == from then to else s[i]
  {
    if |s| == 0 then [] else [if s[0] == from then to else s[0]] + ReplaceChar(s[1..], from, to)
  }

  /** `str::replace("\"", "\\\"")`: every double quote gets a backslash in
      front of it; nothing else changes. */
  function EscapeQuotes(s: string): (r: string)
    ensures |r| >= |s|
    ensures '"' !in s ==> r == s
  {
    if |s| == 0 then []
    else (if s[0] == '"' then "\\\"" else [s[0]]) + EscapeQuotes(s[1..])
  }

  /** The reverse reading: `\"` stands for `"`, everything else for itself. */
  function UnescapeQuotes(s: string): string {
    if |s| == 0 then []
    else if |s| >= 2 && s[0] == '\\' && s[1] == '"' then "\"" + UnescapeQuotes(s[2..])
    else [s[0]] + UnescapeQuotes(s[1..])
  }

  /** Every double quote of an escaped string is preceded by a backslash. */
  predicate QuotesEscaped(s: string) {
    forall i :: 0 <= i < |s| && s[i] == '"' ==> i > 0 && s[i - 1] == '\\'
  }

  lemma {:induction false} EscapeQuotesEscapes(s: string)
    ensures QuotesEscaped(EscapeQuotes(s))
  {
    if |s| > 0 {
      EscapeQuotesEscapes(s[1..]);
      var head := if s[0] == '"' then "\\\"" else [s[0]];
      var tail := EscapeQuotes(s[1..]);
      assert EscapeQuotes(s) == head + tail;
      forall i | 0 <= i < |head + tail| && (head + tail)[i] == '"'
        ensures i > 0 && (head + tail)[i - 1] == '\\'
      {
        if i >= |head| {
          assert tail[i - |head|] == '"';
          if i - |head| == 0 { assert false; }
        }
      }
    }
  }

  /** Escaping loses nothing: the escaped text reads back as the original. */
  lemma {:induction false} UnescapeEscapeQuotes(s: string)
    ensures UnescapeQuotes(EscapeQuotes(s)) == s
  {
    if |s| > 0 {
      UnescapeEscapeQuotes(s[1..]);
      var tail := EscapeQuotes(s[1..]);
      if s[0] == '"' {
        assert EscapeQuotes(s) == "\\\"" + tail;
        assert ("\\\"" + tail)[2..] == tail;
      } else if s[0] == '\\' {
        assert EscapeQuotes(s) == [s[0]] + tail;
        EscapedNeverStartsWithQuote(s[1..]);
        assert ([s[0]] + tail)[1..] == tail;
      } else {
        assert EscapeQuotes(s) == [s[0]] + tail;
        assert ([s[0]] + tail)[1..] == tail;
      }
    }
  }

  lemma EscapedNeverStartsWithQuote(s: string)
    ensures |EscapeQuotes(s)| > 0 ==> EscapeQuotes(s)[0] != '"'
  {
  }

  // ---------------------------------------------------------------------
  // Decimal numbers
  // ---------------------------------------------------------------------

  predicate IsDigit(c: char) {
    '0' <= c <= '9'
  }

  predicate AllDigits(s: string) {
    forall i :: 0 <= i < |s| ==> IsDigit(s[i])
  }

  /** The number a string of decimal digits denotes. */
  function DigitsValue(s: string): nat
    requires AllDigits(s)
  {
    if |s| == 0 then 0 else DigitsValue(s[..|s| - 1]) * 10 + (s[|s| - 1] as int - '0' as int)
  }

  /** Rust's `{}` formatting of an unsigned integer: its decimal digits,
      without leading zeros. */
  function Decimal(n: nat): (r: string)
    ensures |r| >= 1 && AllDigits(r)
    ensures DigitsValue(r) == n
    ensures r[0] == '0' ==> n == 0
  {
    var last := [('0' as int + n % 10) as char];
    if n < 10 then last
    else
      var front := Decimal(n / 10);
      assert (front + last)[..|front + last| - 1] == front;
      front + last
  }

  /** The length of the run of digits `s` starts with. */
  function DigitRun(s: string): (k: nat)
    ensures k <= |s| && AllDigits(s[..k])
    ensures k < |s| ==> !IsDigit(s[k])
  {
    if |s| > 0 && IsDigit(s[0]) then
      var k := 1 + DigitRun(s[1..]);
      assert s[..k] == [s[0]] + s[1..][..k - 1];
      k
    else 0
  }

  /** Reads the number that `s` starts with (one or more digits) and returns
      it with the text after it. */
  function ReadNat(s: string): Option<(nat, string)> {
    var k := DigitRun(s);
    if k == 0 then None else Some((DigitsValue(s[..k]), s[k..]))
  }

  /** Reading back a formatted number gives the number, as long as no digit
      follows it. */
  lemma ReadNatDecimal(n: nat, t: string)
    requires |t| == 0 || !IsDigit(t[0])
    ensures ReadNat(Decimal(n) + t) == Some((n, t))
  {
    var d := Decimal(n);
    DigitRunOver(d, t);
    assert (d + t)[..|d|] == d;
    assert (d + t)[|d|..] == t;
  }

  lemma {:induction false} DigitRunOver(d: string, t: string)
    requires AllDigits(d)
    requires |t| == 0 || !IsDigit(t[0])
    ensures DigitRun(d + t) == |d|
  {
    if |d| > 0 {
      assert (d + t)[1..] == d[1..] + t;
      DigitRunOver(d[1..], t);
    } else {
      assert d + t == t;
    }
  }

  /** Rust's `{:>w}`: right-aligned in a field of width `w`, padded with
      spaces, never truncated. */
  function PadLeft(s: string, w: nat): string {
    if |s| >= w then s else seq(w - |s|, _ => ' ') + s
  }

  /** The padded text is `w` wide unless `s` is wider, ends with `s`, and
      has only spaces in front of it. */
  lemma PadLeftShape(s: string, w: nat)
    ensures var r := PadLeft(s, w);
      && |r| == (if |s| >= w then |s| else w)
      && r[|r| - |s|..] == s
      && forall i :: 0 <= i < |r| - |s| ==> r[i] == ' '
  {
  }

  // ---------------------------------------------------------------------
  // Concatenation
  // ---------------------------------------------------------------------

  /** Regrouping a concatenation, a step the solver finds costly on its own. */
  lemma Assoc<T>(a: seq<T>, b: seq<T>, c: seq<T>, d: seq<T>)
    ensures a + (b + c) + d == a + b + (c + d)
  {
  }

  lemma Assoc3<T>(a: seq<T>, b: seq<T>, c: seq<T>, d: seq<T>)
    ensures a + b + c + d == a + (b + c + d)
  {
  }

  lemma Regroup<T>(a: seq<T>, b: seq<T>, c: seq<T>, d: seq<T>)
    ensures a + (b + (c + d)) == a + b + c + d
  {
  }
}
