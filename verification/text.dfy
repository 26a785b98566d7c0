/** The string primitives of Go's `strings`, `strconv` and `unicode` packages
    that the ripping workflow relies on, over `string == seq<char>` (one char
    per Unicode code point, i.e. per Go rune). */
module Text {
  import opened Wrappers

  // ---------------------------------------------------------------------------
  // Character classes
  // ---------------------------------------------------------------------------

  predicate IsDigit(c: char) { '0' <= c <= '9' }

  predicate IsUpper(c: char) { 'A' <= c <= 'Z' }

  predicate IsLower(c: char) { 'a' <= c <= 'z' }

  /** ASCII letters and digits: the model's restriction of Go's
      `unicode.IsLetter(r) || unicode.IsDigit(r)`. */
  predicate IsAlnum(c: char) { IsUpper(c) || IsLower(c) || IsDigit(c) }

  /** Go's `unicode.IsSpace`: the Latin-1 spaces plus the other code points
      carrying the Unicode White_Space property. */
  predicate IsSpace(c: char) {
    c in SpaceChars
  }

  const SpaceChars: set<char> :=
    { ' ', '\t', '\n', '\U{000B}', '\U{000C}', '\r', '\U{0085}', '\U{00A0}', '\U{1680}',
      '\U{2000}', '\U{2001}', '\U{2002}', '\U{2003}', '\U{2004}', '\U{2005}',
      '\U{2006}', '\U{2007}', '\U{2008}', '\U{2009}', '\U{200A}',
      '\U{2028}', '\U{2029}', '\U{202F}', '\U{205F}', '\U{3000}' }

  /** ASCII upper-casing; every other character is left unchanged. */
  function ToUpper(c: char): (u: char)
    ensures IsLower(c) ==> IsUpper(u)
    ensures !IsLower(c) ==> u == c
    ensures IsAlnum(c) <==> IsAlnum(u)
  {
    if IsLower(c) then (c as int - 32) as char else c
  }

  predicate AllDigits(s: string) {
    forall i :: 0 <= i < |s| ==> IsDigit(s[i])
  }

  predicate NoDigits(s: string) {
    forall i :: 0 <= i < |s| ==> !IsDigit(s[i])
  }

  predicate AllSpace(s: string) {
    forall i :: 0 <= i < |s| ==> IsSpace(s[i])
  }

  // ---------------------------------------------------------------------------
  // Prefix, suffix, substring
  // ---------------------------------------------------------------------------

  predicate HasPrefix(s: string, p: string) {
    |p| <= |s| && s[..|p|] == p
  }

  predicate HasSuffix(s: string, p: string) {
    |p| <= |s| && s[|s| - |p|..] == p
  }

  predicate OccursAt(s: string, t: string, i: int) {
    0 <= i && i + |t| <= |s| && s[i..i + |t|] == t
  }

  /** `strings.Contains`. */
  predicate Contains(s: string, t: string) {
    exists i | 0 <= i <= |s| - |t| :: OccursAt(s, t, i)
  }

  lemma ContainsConcat(a: string, t: string, b: string)
    ensures Contains(a + t + b, t)
  {
    assert OccursAt(a + t + b, t, |a|);
  }

  // ---------------------------------------------------------------------------
  // Split and its inverse
  // ---------------------------------------------------------------------------

  /** The index of the first occurrence of `c` in `s`. */
  function IndexOf(s: string, c: char): (i: nat)
    requires c in s
    ensures i < |s| && s[i] == c && c !in s[..i]
  {
    if s[0] == c then 0
    else
      var k := IndexOf(s[1..], c);
      assert s[..k + 1] == [s[0]] + s[1..][..k];
      k + 1
  }

  /** `strings.Join(parts, string(sep))`; the empty list joins to "". */
  function JoinSep(parts: seq<string>, sep: char): string
  {
    if |parts| == 0 then ""
    else if |parts| == 1 then parts[0]
    else parts[0] + [sep] + JoinSep(parts[1..], sep)
  }

  /** `strings.Split(s, string(sep))`: the maximal sep-free pieces between the
      occurrences of `sep`, so there is always at least one piece, and joining
      them back with `sep` gives `s` again. */
  function Split(s: string, sep: char): (parts: seq<string>)
    ensures |parts| >= 1
    ensures forall i :: 0 <= i < |parts| ==> sep !in parts[i]
    ensures JoinSep(parts, sep) == s
    decreases |s|
  {
    if sep !in s then [s]
    else
      var i := IndexOf(s, sep);
      var rest := Split(s[i + 1..], sep);
      assert s == s[..i] + [sep] + s[i + 1..];
      [s[..i]] + rest
  }

  /** The other direction of the round trip: joining sep-free pieces and
      splitting again recovers the pieces. */
  lemma {:induction false} SplitJoinSep(parts: seq<string>, sep: char)
    requires |parts| >= 1
    requires forall i :: 0 <= i < |parts| ==> sep !in parts[i]
    ensures Split(JoinSep(parts, sep), sep) == parts
    decreases |parts|
  {
    if |parts| == 1 {
    } else {
      var s := JoinSep(parts, sep);
      var tail := JoinSep(parts[1..], sep);
      assert s == parts[0] + [sep] + tail;
      assert s[|parts[0]|] == sep;
      assert sep in s;
      var i := IndexOf(s, sep);
      assert s[..|parts[0]|] == parts[0];
      assert i == |parts[0]|;
      assert s[i + 1..] == tail;
      SplitJoinSep(parts[1..], sep);
    }
  }

  /** `strings.Split(s, "\n")[0]`: the text before the first newline. */
  function FirstLine(s: string): (l: string)
    ensures '\n' !in l
    ensures HasPrefix(s, l)
    ensures l == s || s[|l|] == '\n'
  {
    var parts := Split(s, '\n');
    SplitHead(parts, '\n');
    parts[0]
  }

  lemma SplitHead(parts: seq<string>, sep: char)
    requires |parts| >= 1
    ensures HasPrefix(JoinSep(parts, sep), parts[0])
    ensures |parts| == 1 || JoinSep(parts, sep)[|parts[0]|] == sep
    ensures |parts| == 1 ==> JoinSep(parts, sep) == parts[0]
  {
    if |parts| > 1 {
      var s := JoinSep(parts, sep);
      assert s == parts[0] + [sep] + JoinSep(parts[1..], sep);
      assert s[..|parts[0]|] == parts[0];
    }
  }

  /** `strings.SplitN(s, string(sep), 2)` when it yields two parts: the text
      before and after the first `sep`. */
  function Cut(s: string, sep: char): (r: (string, string))
    requires sep in s
    ensures sep !in r.0
    ensures s == r.0 + [sep] + r.1
  {
    var i := IndexOf(s, sep);
    assert s == s[..i] + [sep] + s[i + 1..];
    (s[..i], s[i + 1..])
  }

  /** The cut falls at the separator after a separator-free head. */
  lemma CutOf(k: string, v: string, sep: char)
    requires sep !in k
    ensures sep in k + [sep] + v && Cut(k + [sep] + v, sep) == (k, v)
  {
    var s := k + [sep] + v;
    assert s[|k|] == sep;
    var r := Cut(s, sep);
    assert |r.0| == |k|;
    assert r.0 == s[..|k|] == k;
    assert r.1 == s[|k| + 1..] == v;
  }

  // ---------------------------------------------------------------------------
  // Trimming
  // ---------------------------------------------------------------------------

  /** Number of leading white-space characters. */
  function LeadingSpace(s: string): (n: nat)
    ensures n <= |s| && AllSpace(s[..n])
    ensures n == |s| || !IsSpace(s[n])
  {
    if |s| > 0 && IsSpace(s[0]) then
      var k := LeadingSpace(s[1..]);
      assert s[..k + 1] == [s[0]] + s[1..][..k];
      k + 1
    else 0
  }

  /** Number of trailing white-space characters. */
  function TrailingSpace(s: string): (n: nat)
    ensures n <= |s| && AllSpace(s[|s| - n..])
    ensures n == |s| || !IsSpace(s[|s| - n - 1])
  {
    if |s| > 0 && IsSpace(s[|s| - 1]) then
      var t := s[..|s| - 1];
      var k := TrailingSpace(t);
      var tail := s[|s| - (k + 1)..];
      assert tail == t[|t| - k..] + [s[|s| - 1]];
      assert forall i :: 0 <= i < |tail| ==> IsSpace(tail[i]) by {
        forall i | 0 <= i < |tail| ensures IsSpace(tail[i]) {
          if i < k { assert tail[i] == t[|t| - k..][i]; }
        }
      }
      k + 1
    else 0
  }

  /** `strings.TrimSpace`: `s` without its leading and trailing white space.
      The result is the unique slice of `s` that neither starts nor ends with
      white space and is surrounded by white space only. */
  function TrimSpace(s: string): (r: string)
    ensures r == [] || (!IsSpace(r[0]) && !IsSpace(r[|r| - 1]))
    ensures exists i, j :: 0 <= i <= j <= |s| && r == s[i..j] && AllSpace(s[..i]) && AllSpace(s[j..])
  {
    var i := LeadingSpace(s);
    var k := TrailingSpace(s[i..]);
    var j := |s| - k;
    TrimBounds(s, i, k);
    assert 0 <= i <= j <= |s| && s[i..j] == s[i..j] && AllSpace(s[..i]) && AllSpace(s[j..]);
    s[i..j]
  }

  /** The slice `TrimSpace` keeps, described by its two ends: `i` leading
      and `k` trailing white-space characters, each run maximal. */
  lemma TrimBounds(s: string, i: nat, k: nat)
    requires i <= |s| && AllSpace(s[..i]) && (i == |s| || !IsSpace(s[i]))
    requires var t := s[i..]; k <= |t| && AllSpace(t[|t| - k..]) && (k == |t| || !IsSpace(t[|t| - k - 1]))
    ensures i <= |s| - k && AllSpace(s[..i]) && AllSpace(s[|s| - k..])
    ensures var r := s[i..|s| - k]; r == [] || (!IsSpace(r[0]) && !IsSpace(r[|r| - 1]))
  {
    var t := s[i..];
    assert s[|s| - k..] == t[|t| - k..];
    assert s[i..|s| - k] == t[..|t| - k];
  }

  /** Where the trimmed text sits in `s`. */
  lemma TrimSlice(s: string) returns (i: nat, j: nat)
    ensures i <= j <= |s| && TrimSpace(s) == s[i..j]
    ensures AllSpace(s[..i]) && AllSpace(s[j..])
  {
    i := LeadingSpace(s);
    var k := TrailingSpace(s[i..]);
    TrimBounds(s, i, k);
    j := |s| - k;
  }

  /** Neither starts nor ends with white space: what `TrimSpace` returns. */
  predicate IsTrimmed(s: string) {
    s == [] || (!IsSpace(s[0]) && !IsSpace(s[|s| - 1]))
  }

  lemma LeadingSpaceOf(a: string, rest: string)
    requires AllSpace(a) && (rest == [] || !IsSpace(rest[0]))
    ensures LeadingSpace(a + rest) == |a|
  {
    if |a| > 0 {
      assert (a + rest)[1..] == a[1..] + rest;
      LeadingSpaceOf(a[1..], rest);
    } else {
      assert a + rest == rest;
    }
  }

  lemma TrailingSpaceOf(rest: string, b: string)
    requires AllSpace(b) && (rest == [] || !IsSpace(rest[|rest| - 1]))
    ensures TrailingSpace(rest + b) == |b|
  {
    if |b| > 0 {
      var s := rest + b;
      var b' := b[..|b| - 1];
      assert s[..|s| - 1] == rest + b';
      assert s[|s| - 1] == b[|b| - 1];
      assert IsSpace(s[|s| - 1]);
      TrailingSpaceOf(rest, b');
      assert TrailingSpace(s) == TrailingSpace(rest + b') + 1;
    } else {
      assert rest + b == rest;
    }
  }

  /** White space around a trimmed, non-empty text is exactly what
      `TrimSpace` removes. */
  lemma TrimSpaceAround(a: string, v: string, b: string)
    requires AllSpace(a) && AllSpace(b) && IsTrimmed(v) && v != []
    ensures TrimSpace(a + v + b) == v
  {
    var s := a + v + b;
    assert s == a + (v + b);
    LeadingSpaceOf(a, v + b);
    var t := s[|a|..];
    assert t == v + b;
    TrailingSpaceOf(v, b);
    assert s[|a|..|s| - |b|] == v;
  }

  lemma TrimSpaceOfTrimmed(s: string)
    requires s == [] || (!IsSpace(s[0]) && !IsSpace(s[|s| - 1]))
    ensures TrimSpace(s) == s
  {
    assert LeadingSpace(s) == 0;
    assert TrailingSpace(s) == 0;
  }

  // ---------------------------------------------------------------------------
  // Fields
  // ---------------------------------------------------------------------------

  /** Length of the longest prefix of `s` with no separator character. */
  function Span(s: string, isSep: char -> bool): (n: nat)
    ensures n <= |s|
    ensures forall k :: 0 <= k < n ==> !isSep(s[k])
    ensures n == |s| || isSep(s[n])
  {
    if |s| > 0 && !isSep(s[0]) then 1 + Span(s[1..], isSep) else 0
  }

  /** The characters of `s` that are not separators, in order. */
  function Keep(s: string, isSep: char -> bool): string
  {
    if |s| == 0 then ""
    else if isSep(s[0]) then Keep(s[1..], isSep)
    else [s[0]] + Keep(s[1..], isSep)
  }

  lemma KeepAppend(a: string, b: string, isSep: char -> bool)
    ensures Keep(a + b, isSep) == Keep(a, isSep) + Keep(b, isSep)
  {
    if |a| > 0 {
      assert (a + b)[0] == a[0];
      assert (a + b)[1..] == a[1..] + b;
      KeepAppend(a[1..], b, isSep);
    } else {
      assert a + b == b;
    }
  }

  /** `strings.FieldsFunc(s, isSep)`: the maximal non-empty runs of
      non-separator characters, in order. */
  function Fields(s: string, isSep: char -> bool): (fs: seq<string>)
    ensures forall i :: 0 <= i < |fs| ==> |fs[i]| > 0
    ensures forall i, k :: 0 <= i < |fs| && 0 <= k < |fs[i]| ==> !isSep(fs[i][k])
    decreases |s|
  {
    if |s| == 0 then []
    else if isSep(s[0]) then Fields(s[1..], isSep)
    else
      var n := Span(s, isSep);
      [s[..n]] + Fields(s[n..], isSep)
  }

  /** Concatenation of a list of strings. */
  function Concat(ss: seq<string>): string
  {
    if |ss| == 0 then "" else ss[0] + Concat(ss[1..])
  }

  /** Nothing but the separators is lost when splitting into fields. */
  lemma {:induction false} FieldsKeep(s: string, isSep: char -> bool)
    ensures Concat(Fields(s, isSep)) == Keep(s, isSep)
    decreases |s|
  {
    if |s| == 0 {
    } else if isSep(s[0]) {
      FieldsKeep(s[1..], isSep);
    } else {
      var n := Span(s, isSep);
      FieldsKeep(s[n..], isSep);
      assert s == s[..n] + s[n..];
      KeepAppend(s[..n], s[n..], isSep);
      KeepNoSep(s[..n], isSep);
    }
  }

  lemma KeepNoSep(w: string, isSep: char -> bool)
    requires forall k :: 0 <= k < |w| ==> !isSep(w[k])
    ensures Keep(w, isSep) == w
  {
    if |w| > 0 {
      KeepNoSep(w[1..], isSep);
    }
  }

  // ---------------------------------------------------------------------------
  // Digit runs and decimal numbers
  // ---------------------------------------------------------------------------

  /** The longest prefix of `s` made of ASCII digits. */
  function DigitPrefix(s: string): (d: string)
    ensures HasPrefix(s, d) && AllDigits(d)
    ensures |d| == |s| || !IsDigit(s[|d|])
  {
    if |s| > 0 && IsDigit(s[0]) then
      var d := DigitPrefix(s[1..]);
      assert s[..|d| + 1] == [s[0]] + s[1..][..|d|];
      [s[0]] + d
    else ""
  }

  lemma DigitPrefixOf(d: string, rest: string)
    requires AllDigits(d)
    requires rest == [] || !IsDigit(rest[0])
    ensures DigitPrefix(d + rest) == d
  {
    if |d| > 0 {
      assert (d + rest)[1..] == d[1..] + rest;
      DigitPrefixOf(d[1..], rest);
    }
  }

  /** Index of the first digit of `s`, or `|s|` when there is none. */
  function FirstDigit(s: string): (k: nat)
    ensures k <= |s| && NoDigits(s[..k])
    ensures k == |s| || IsDigit(s[k])
  {
    if |s| == 0 || IsDigit(s[0]) then 0
    else
      var k := FirstDigit(s[1..]);
      assert s[..k + 1] == [s[0]] + s[1..][..k];
      k + 1
  }

  /** What the regular expression `[0-9]+` finds first in `s`
      (Go's `FindString`): the maximal run of digits starting at the first
      digit of `s`, or "" when `s` has no digit at all. */
  function LeftmostDigitRun(s: string): (d: string)
    ensures AllDigits(d)
    ensures d == [] <==> NoDigits(s)
    ensures HasPrefix(s[FirstDigit(s)..], d)
    ensures FirstDigit(s) + |d| == |s| || !IsDigit(s[FirstDigit(s) + |d|])
  {
    var k := FirstDigit(s);
    assert k == |s| ==> s[..k] == s;
    DigitPrefix(s[k..])
  }

  /** `d` is what `[0-9]+` finds first in `s`: a run of digits with no digit
      before it and none right after it, or "" when `s` has no digit. */
  predicate IsFirstDigitRun(s: string, d: string) {
    && AllDigits(d)
    && (d == [] <==> NoDigits(s))
    && exists i :: 0 <= i <= |s| - |d| && OccursAt(s, d, i) && NoDigits(s[..i])
                   && (i + |d| == |s| || !IsDigit(s[i + |d|]))
  }

  lemma LeftmostDigitRunIsFirst(s: string)
    ensures IsFirstDigitRun(s, LeftmostDigitRun(s))
  {
    var d, k := LeftmostDigitRun(s), FirstDigit(s);
    assert OccursAt(s, d, k);
  }

  /** There is only one first run of digits. */
  lemma FirstDigitRunUnique(s: string, d1: string, d2: string)
    requires IsFirstDigitRun(s, d1) && IsFirstDigitRun(s, d2)
    ensures d1 == d2
  {
    if d1 != [] {
      var i1 := RunIndex(s, d1);
      var i2 := RunIndex(s, d2);
      RunStart(s, d1, i1, i2);
      RunStart(s, d2, i2, i1);
      RunEnd(s, d1, d2, i1);
      RunEnd(s, d2, d1, i1);
    }
  }

  /** Where a first run of digits sits. */
  lemma RunIndex(s: string, d: string) returns (i: nat)
    requires IsFirstDigitRun(s, d)
    ensures i <= |s| - |d| && OccursAt(s, d, i) && NoDigits(s[..i])
    ensures i + |d| == |s| || !IsDigit(s[i + |d|])
  {
    i :| 0 <= i <= |s| - |d| && OccursAt(s, d, i) && NoDigits(s[..i])
         && (i + |d| == |s| || !IsDigit(s[i + |d|]));
  }

  /** A run of digits cannot start before a digit-free prefix ends. */
  lemma RunStart(s: string, d: string, i: nat, j: nat)
    requires d != [] && AllDigits(d) && OccursAt(s, d, i)
    requires j <= |s| && NoDigits(s[..j])
    ensures j <= i
  {
    assert s[i] == d[0];
    assert forall k :: 0 <= k < j ==> s[..j][k] == s[k];
  }

  /** A maximal run is not shorter than another run from the same start. */
  lemma RunEnd(s: string, d1: string, d2: string, i: nat)
    requires AllDigits(d2) && OccursAt(s, d1, i) && OccursAt(s, d2, i)
    requires i + |d1| == |s| || !IsDigit(s[i + |d1|])
    ensures |d2| <= |d1| && d2 == d1[..|d2|]
  {
    assert forall k :: 0 <= k < |d2| ==> s[i + k] == d2[k];
    assert d2 == s[i..i + |d2|];
  }

  /** A digit-free prefix is skipped: the run found is exactly the digits that
      follow it. */
  lemma {:induction false} LeftmostDigitRunAfter(p: string, d: string)
    requires NoDigits(p) && AllDigits(d)
    ensures LeftmostDigitRun(p + d) == d
    decreases |p|
  {
    if |p| == 0 {
      if |d| > 0 {
        DigitPrefixOf(d, "");
        assert d + "" == d;
      }
      assert p + d == d;
    } else {
      assert (p + d)[1..] == p[1..] + d;
      LeftmostDigitRunAfter(p[1..], d);
    }
  }

  function DigitValue(c: char): nat
    requires IsDigit(c)
  {
    c as int - '0' as int
  }

  function DigitChar(v: nat): (c: char)
    requires v < 10
    ensures IsDigit(c) && DigitValue(c) == v
  {
    ('0' as int + v) as char
  }

  /** The value of a string of decimal digits. */
  function ParseDecimal(d: string): nat
    requires AllDigits(d)
  {
    if |d| == 0 then 0 else 10 * ParseDecimal(d[..|d| - 1]) + DigitValue(d[|d| - 1])
  }

  /** `strconv.Itoa` / `fmt.Sprintf("%d", n)` for a natural number. */
  function Decimal(n: nat): (d: string)
    ensures |d| > 0 && AllDigits(d)
    ensures ParseDecimal(d) == n
  {
    if n < 10 then [DigitChar(n)]
    else
      var d := Decimal(n / 10) + [DigitChar(n % 10)];
      assert d[..|d| - 1] == Decimal(n / 10);
      d
  }

  lemma DecimalInjective(m: nat, n: nat)
    requires Decimal(m) == Decimal(n)
    ensures m == n
  {
  }

  // ---------------------------------------------------------------------------
  // Pieces of regular-expression matching
  // ---------------------------------------------------------------------------

  /** The rest of `s` after the literal `lit`, if `s` starts with it. */
  function After(s: string, lit: string): (r: Option<string>)
    ensures r.Some? <==> HasPrefix(s, lit)
    ensures r.Some? ==> s == lit + r.value
  {
    if HasPrefix(s, lit) then
      assert s == s[..|lit|] + s[|lit|..];
      Some(s[|lit|..])
    else None
  }

  /** A non-empty maximal run of digits at the start of `s` and what follows
      it. `\d+` followed by a non-digit can only match the maximal run, so
      this is also what the backtracking reading of the pattern gives. */
  function Digits(s: string): (r: Option<(string, string)>)
    ensures r.Some? ==> r.value.0 != "" && AllDigits(r.value.0) && s == r.value.0 + r.value.1
    ensures r.Some? ==> r.value.1 == [] || !IsDigit(r.value.1[0])
    ensures r.None? <==> s == [] || !IsDigit(s[0])
  {
    var d := DigitPrefix(s);
    if d == "" then None
    else
      assert s == d + s[|d|..];
      Some((d, s[|d|..]))
  }

  lemma AfterOf(lit: string, rest: string)
    ensures After(lit + rest, lit) == Some(rest)
  {
    assert (lit + rest)[..|lit|] == lit;
  }

  lemma DigitsOf(d: string, rest: string)
    requires d != "" && AllDigits(d) && (rest == [] || !IsDigit(rest[0]))
    ensures Digits(d + rest) == Some((d, rest))
  {
    DigitPrefixOf(d, rest);
    assert (d + rest)[|d|..] == rest;
  }

  /** Go's leftmost match: `at(s[i..])` tries the pattern anchored at `i`,
      and the result is the one at the smallest `i` where it matches. */
  function Leftmost<T(==)>(s: string, at: string -> Option<T>): (r: Option<T>)
    ensures r.None? <==> forall i :: 0 <= i <= |s| ==> at(s[i..]).None?
    ensures r.Some? ==> exists i :: 0 <= i <= |s| && at(s[i..]) == r &&
                                    forall j :: 0 <= j < i ==> at(s[j..]).None?
    decreases |s|
  {
    if at(s).Some? then
      assert s[0..] == s;
      at(s)
    else if |s| == 0 then
      assert forall i :: 0 <= i <= |s| ==> s[i..] == s;
      None
    else
      var r := Leftmost(s[1..], at);
      assert forall i :: 0 <= i <= |s[1..]| ==> s[1..][i..] == s[i + 1..];
      assert s[0..] == s;
      if r.Some? then
        var i :| 0 <= i <= |s[1..]| && at(s[1..][i..]) == r &&
                 forall j :: 0 <= j < i ==> at(s[1..][j..]).None?;
        assert at(s[i + 1..]) == r;
        assert forall j :: 0 <= j < i + 1 ==> at(s[j..]).None? by {
          forall j | 0 <= j < i + 1 ensures at(s[j..]).None? {
            if j > 0 { assert s[j..] == s[1..][j - 1..]; }
          }
        }
        r
      else
        assert forall i :: 1 <= i <= |s| ==> s[i..] == s[1..][i - 1..];
        r
  }

  /** The first element of `xs` for which `f` yields something, with what
      it yields. */
  function FirstSome<X, T(==)>(xs: seq<X>, f: X -> Option<T>): (r: Option<T>)
    ensures r.None? <==> forall i :: 0 <= i < |xs| ==> f(xs[i]).None?
    ensures r.Some? ==> exists i :: 0 <= i < |xs| && f(xs[i]) == r &&
                                    forall j :: 0 <= j < i ==> f(xs[j]).None?
    decreases |xs|
  {
    if |xs| == 0 then None
    else if f(xs[0]).Some? then f(xs[0])
    else
      var r := FirstSome(xs[1..], f);
      assert forall i :: 0 <= i < |xs[1..]| ==> xs[1..][i] == xs[i + 1];
      if r.Some? then
        var i :| 0 <= i < |xs[1..]| && f(xs[1..][i]) == r &&
                 forall j :: 0 <= j < i ==> f(xs[1..][j]).None?;
        assert f(xs[i + 1]) == r;
        assert forall j :: 0 <= j < i + 1 ==> f(xs[j]).None? by {
          forall j | 0 <= j < i + 1 ensures f(xs[j]).None? {
            if j > 0 { assert xs[j] == xs[1..][j - 1]; }
          }
        }
        r
      else
        r
  }

  /** A match at the very start is the leftmost one. */
  lemma LeftmostAtStart<T>(s: string, at: string -> Option<T>)
    requires at(s).Some?
    ensures Leftmost(s, at) == at(s)
  {
  }
}
