/**
 * The Python `str` operations the quiz engine relies on: `strip()`, `lower()`,
 * `upper()`, `split(',')`, the substring test `a in b`, integer formatting
 * inside f-strings, and the byte-wise string order SQLite uses for
 * `ORDER BY` on text columns.
 */
module Text {

  /** The characters Python's `str.isspace()` accepts, which `str.strip()` removes. */
  predicate IsSpace(c: char) {
    || ('\t' <= c <= '\r')
    || ('\U{1c}' <= c <= '\U{1f}')
    || c == ' ' || c == '\U{85}' || c == '\U{a0}' || c == '\U{1680}'
    || ('\U{2000}' <= c <= '\U{200a}')
    || c == '\U{2028}' || c == '\U{2029}' || c == '\U{202f}' || c == '\U{205f}' || c == '\U{3000}'
  }

  /** Number of whitespace characters at the front of `s`. */
  function LeadingSpaces(s: string): (n: nat)
    ensures n <= |s|
  {
    if s != [] && IsSpace(s[0]) then 1 + LeadingSpaces(s[1..]) else 0
  }

  /** The leading run is all whitespace and ends at a non-space or at the end. */
  lemma {:induction false} LeadingSpacesFacts(s: string)
    ensures forall i :: 0 <= i < LeadingSpaces(s) ==> IsSpace(s[i])
    ensures LeadingSpaces(s) < |s| ==> !IsSpace(s[LeadingSpaces(s)])
  {
    if s != [] && IsSpace(s[0]) {
      LeadingSpacesFacts(s[1..]);
    }
  }

  /** Number of whitespace characters at the end of `s`. */
  function TrailingSpaces(s: string): (n: nat)
    ensures n <= |s|
  {
    if s != [] && IsSpace(s[|s| - 1]) then 1 + TrailingSpaces(s[..|s| - 1]) else 0
  }

  /** The trailing run is all whitespace and starts after a non-space or at the start. */
  lemma {:induction false} TrailingSpacesFacts(s: string)
    ensures forall i :: |s| - TrailingSpaces(s) <= i < |s| ==> IsSpace(s[i])
    ensures TrailingSpaces(s) < |s| ==> !IsSpace(s[|s| - 1 - TrailingSpaces(s)])
  {
    if s != [] && IsSpace(s[|s| - 1]) {
      TrailingSpacesFacts(s[..|s| - 1]);
    }
  }

  /** Python `s.strip()`: `s` without its leading and trailing whitespace. */
  function Strip(s: string): (r: string)
    ensures |r| <= |s|
  {
    var a := LeadingSpaces(s);
    var b := |s| - TrailingSpaces(s);
    if a < b then s[a..b] else []
  }

  /** The part `Strip` keeps is the slice `s[a..b]` between the stripped margins. */
  lemma StripIsSlice(s: string)
    ensures var a, b := LeadingSpaces(s), |s| - TrailingSpaces(s);
            (a < b ==> Strip(s) == s[a..b]) && (a >= b ==> Strip(s) == [])
  {
    var a, b := LeadingSpaces(s), |s| - TrailingSpaces(s);
    if a < b {
      assert Strip(s) == s[a..b];
    } else {
      assert Strip(s) == [];
    }
  }

  /**
   * Stripped text neither starts nor ends with whitespace, and it is empty
   * exactly when the text was all whitespace.
   */
  lemma StripFacts(s: string)
    ensures var r := Strip(s); r == [] || (!IsSpace(r[0]) && !IsSpace(r[|r| - 1]))
    ensures Strip(s) == [] <==> forall i :: 0 <= i < |s| ==> IsSpace(s[i])
  {
    LeadingSpacesFacts(s);
    TrailingSpacesFacts(s);
    var a, b := LeadingSpaces(s), |s| - TrailingSpaces(s);
    if a < b {
      assert s[a..b][0] == s[a] && s[a..b][b - a - 1] == s[b - 1];
    }
  }

  /** Stripping twice is stripping once. */
  lemma StripIdempotent(s: string)
    ensures Strip(Strip(s)) == Strip(s)
  {
    var r := Strip(s);
    if r != [] {
      StripFacts(s);
      assert LeadingSpaces(r) == 0;
      assert TrailingSpaces(r) == 0;
      StripIsSlice(r);
    }
  }

  function LowerChar(c: char): char {
    if 'A' <= c <= 'Z' then (c as int + 32) as char else c
  }

  function UpperChar(c: char): char {
    if 'a' <= c <= 'z' then (c as int - 32) as char else c
  }

  /** Python `s.lower()`, restricted to the ASCII letters. */
  function Lower(s: string): (r: string)
    ensures |r| == |s|
  {
    seq(|s|, i requires 0 <= i < |s| => LowerChar(s[i]))
  }

  /** Python `s.upper()`, restricted to the ASCII letters. */
  function Upper(s: string): (r: string)
    ensures |r| == |s|
  {
    seq(|s|, i requires 0 <= i < |s| => UpperChar(s[i]))
  }

  predicate IsLower(s: string) {
    forall i :: 0 <= i < |s| ==> LowerChar(s[i]) == s[i]
  }

  /** `lower()` yields lower-case text, and leaves lower-case text as it is. */
  lemma LowerIsLower(s: string)
    ensures IsLower(Lower(s))
    ensures IsLower(s) ==> Lower(s) == s
  {
  }

  /** Case mapping never turns a letter into whitespace or back, so strip and lower commute. */
  lemma {:induction false} LowerStripCommute(s: string)
    ensures Lower(Strip(s)) == Strip(Lower(s))
  {
    var a, b := LeadingSpaces(s), |s| - TrailingSpaces(s);
    StripLowerSlice(s);
    StripIsSlice(s);
    if a < b {
      LowerSlice(s, a, b);
    }
  }

  /** Stripping lower-cased text cuts it at the same margins as the original. */
  lemma StripLowerSlice(s: string)
    ensures var a, b := LeadingSpaces(s), |s| - TrailingSpaces(s);
            (a < b ==> Strip(Lower(s)) == Lower(s)[a..b]) && (a >= b ==> Strip(Lower(s)) == [])
  {
    LeadingSpacesLower(s);
    TrailingSpacesLower(s);
    StripIsSlice(Lower(s));
  }

  /** Lower-casing a slice is slicing the lower-cased text. */
  lemma LowerSlice(s: string, i: nat, j: nat)
    requires i <= j <= |s|
    ensures Lower(s[i..j]) == Lower(s)[i..j]
  {
  }

  lemma {:induction false} LeadingSpacesLower(s: string)
    ensures LeadingSpaces(Lower(s)) == LeadingSpaces(s)
  {
    if s != [] {
      assert Lower(s)[0] == LowerChar(s[0]);
      assert Lower(s)[1..] == Lower(s[1..]);
      LeadingSpacesLower(s[1..]);
    }
  }

  lemma {:induction false} TrailingSpacesLower(s: string)
    ensures TrailingSpaces(Lower(s)) == TrailingSpaces(s)
  {
    if s != [] {
      assert Lower(s)[|s| - 1] == LowerChar(s[|s| - 1]);
      assert Lower(s)[..|s| - 1] == Lower(s[..|s| - 1]);
      TrailingSpacesLower(s[..|s| - 1]);
    }
  }

  /** Python `sub in s` on strings: `sub` occurs as a contiguous slice of `s`. */
  predicate Contains(sub: string, s: string) {
    exists i :: 0 <= i <= |s| - |sub| && OccursAt(sub, s, i)
  }

  /** `sub` occurs in `s` starting at index `i`. */
  predicate OccursAt(sub: string, s: string, i: int) {
    0 <= i <= |s| - |sub| && s[i..i + |sub|] == sub
  }

  /** The empty string occurs in every string, as it does in Python. */
  lemma EmptyIsContained(s: string)
    ensures Contains("", s)
  {
    assert OccursAt("", s, 0);
  }

  /** Every string occurs in itself. */
  lemma ContainsSelf(s: string)
    ensures Contains(s, s)
  {
    assert OccursAt(s, s, 0);
  }

  /** A slice of a slice is a slice: `s[i..j]` occurs in `s[a..b]` when `a <= i <= j <= b`. */
  lemma SliceContained(s: string, a: nat, b: nat, i: nat, j: nat)
    requires a <= i <= j <= b <= |s|
    ensures Contains(s[i..j], s[a..b])
  {
    var t := s[a..b];
    assert |t[i - a..j - a]| == j - i;
    assert forall k :: i <= k < j ==> t[k - a] == s[k];
    assert t[i - a..j - a] == s[i..j];
    assert OccursAt(s[i..j], t, i - a);
  }

  /**
   * Stripping a prefix of `s` leaves a piece of stripped `s`: the prefix's
   * stripped text starts where `s`'s does and ends no later.
   */
  lemma StripPrefixContained(s: string, k: nat)
    requires k <= |s|
    ensures Contains(Strip(s[..k]), Strip(s))
  {
    var p := s[..k];
    var a, b := LeadingSpaces(s), |s| - TrailingSpaces(s);
    var ap, bp := LeadingSpaces(p), |p| - TrailingSpaces(p);
    LeadingSpacesFacts(s);
    TrailingSpacesFacts(s);
    LeadingSpacesFacts(p);
    TrailingSpacesFacts(p);
    if ap >= bp {
      assert Strip(p) == [];
      EmptyIsContained(Strip(s));
    } else {
      assert !IsSpace(p[ap]) && !IsSpace(p[bp - 1]);
      assert forall i :: 0 <= i < ap ==> IsSpace(s[i]) by {
        assert forall i :: 0 <= i < k ==> s[i] == p[i];
      }
      assert !IsSpace(s[ap]) && !IsSpace(s[bp - 1]);
      assert a == ap;
      assert bp <= b;
      assert Strip(p) == s[ap..bp];
      assert Strip(s) == s[a..b];
      SliceContained(s, a, b, ap, bp);
    }
  }

  /** Joining `parts` with `sep` between consecutive parts (Python `sep.join(parts)`). */
  function Join(parts: seq<string>, sep: char): string
    requires |parts| >= 1
  {
    if |parts| == 1 then parts[0] else parts[0] + [sep] + Join(parts[1..], sep)
  }

  /**
   * Python `s.split(sep)` for a one-character separator: always at least one
   * part, no part holds the separator, and joining the parts gives `s` back.
   */
  function Split(s: string, sep: char): (parts: seq<string>)
    ensures |parts| >= 1
    ensures forall i :: 0 <= i < |parts| ==> sep !in parts[i]
    ensures Join(parts, sep) == s
  {
    if s == [] then [[]]
    else
      var rest := Split(s[1..], sep);
      if s[0] == sep then [[]] + rest
      else [[s[0]] + rest[0]] + rest[1..]
  }

  /** The first part of a split is a prefix of the split string. */
  lemma SplitFirstIsPrefix(s: string, sep: char)
    ensures var p := Split(s, sep)[0]; |p| <= |s| && s[..|p|] == p
  {
    var parts := Split(s, sep);
    if |parts| > 1 {
      assert s == parts[0] + ([sep] + Join(parts[1..], sep));
    }
  }

  /** A string without the separator splits into itself alone. */
  lemma {:induction false} SplitNoSeparator(s: string, sep: char)
    requires sep !in s
    ensures Split(s, sep) == [s]
  {
    if s != [] {
      SplitNoSeparator(s[1..], sep);
      assert [s[0]] + s[1..] == s;
    }
  }

  /** Splitting at the first separator: the part before it, then the split of the rest. */
  lemma {:induction false} SplitAtSeparator(a: string, sep: char, rest: string)
    requires sep !in a
    ensures Split(a + [sep] + rest, sep) == [a] + Split(rest, sep)
  {
    var s := a + [sep] + rest;
    if a == [] {
      assert s[0] == sep && s[1..] == rest;
    } else {
      assert s[0] == a[0] && s[1..] == a[1..] + [sep] + rest;
      SplitAtSeparator(a[1..], sep, rest);
      assert [a[0]] + a[1..] == a;
    }
  }

  function DigitChar(d: nat): char
    requires d < 10
  {
    ('0' as int + d) as char
  }

  /** Decimal rendering of a natural number, as Python's `str(n)`. */
  function NatToString(n: nat): (s: string)
    ensures |s| >= 1
    ensures forall i :: 0 <= i < |s| ==> '0' <= s[i] <= '9'
  {
    if n < 10 then [DigitChar(n)] else NatToString(n / 10) + [DigitChar(n % 10)]
  }

  /** Decimal rendering of an integer, as Python's `str(i)`. */
  function IntToString(i: int): (s: string)
    ensures |s| >= 1
  {
    if i < 0 then "-" + NatToString(-i) else NatToString(i)
  }

  /** Reads a string of decimal digits back as a number (Python `int(s)` on digit strings). */
  function ParseNat(s: string): nat
    requires forall i :: 0 <= i < |s| ==> '0' <= s[i] <= '9'
  {
    if s == [] then 0 else 10 * ParseNat(s[..|s| - 1]) + (s[|s| - 1] as int - '0' as int)
  }

  /** Rendering a number and reading it back gives the number. */
  lemma {:induction false} NatToStringRoundTrip(n: nat)
    ensures ParseNat(NatToString(n)) == n
  {
    if n >= 10 {
      var s := NatToString(n);
      assert s[..|s| - 1] == NatToString(n / 10);
      NatToStringRoundTrip(n / 10);
    }
  }

  /**
   * The order SQLite's BINARY collation gives text: byte-wise on UTF-8, which
   * is the order of code points, with a proper prefix first.
   */
  predicate LexLe(a: string, b: string) {
    |a| == 0 || (|b| != 0 && (a[0] < b[0] || (a[0] == b[0] && LexLe(a[1..], b[1..]))))
  }

  lemma {:induction false} LexLeTotal(a: string, b: string)
    ensures LexLe(a, b) || LexLe(b, a)
  {
    if |a| != 0 && |b| != 0 && a[0] == b[0] {
      LexLeTotal(a[1..], b[1..]);
    }
  }

  lemma {:induction false} LexLeTransitive(a: string, b: string, c: string)
    requires LexLe(a, b) && LexLe(b, c)
    ensures LexLe(a, c)
  {
    if |a| != 0 && |b| != 0 && |c| != 0 && a[0] == b[0] == c[0] {
      LexLeTransitive(a[1..], b[1..], c[1..]);
    }
  }

  lemma {:induction false} LexLeAntisymmetric(a: string, b: string)
    requires LexLe(a, b) && LexLe(b, a)
    ensures a == b
  {
    if |a| != 0 && |b| != 0 {
      LexLeAntisymmetric(a[1..], b[1..]);
      assert a == [a[0]] + a[1..];
      assert b == [b[0]] + b[1..];
    }
  }
}
