/** The handful of Python string operations the pipeline relies on, over
    `string` (a sequence of Unicode scalar values, as a Python `str` is a
    sequence of code points). */
module Strings {

  /** Python's `str.isspace`. It is also the class `\s` matches in a `str`
      pattern and the set `str.strip()` removes when given no argument. */
  predicate IsSpace(c: char) {
    || c == ' '
    || ('\t' <= c <= '\r')                 // \t \n \v \f \r
    || ('\U{1C}' <= c <= '\U{1F}')         // file, group, record and unit separators
    || c == '\U{85}' || c == '\U{A0}' || c == '\U{1680}'
    || ('\U{2000}' <= c <= '\U{200A}')
    || c == '\U{2028}' || c == '\U{2029}' || c == '\U{202F}' || c == '\U{205F}' || c == '\U{3000}'
  }

  /** The number of leading whitespace characters of `s`. */
  function LeadingSpaces(s: string): (n: nat)
    ensures n <= |s|
    ensures n == |s| || !IsSpace(s[n])
  {
    if s != [] && IsSpace(s[0]) then
      var n := 1 + LeadingSpaces(s[1..]);
      assert n < |s| ==> s[n] == s[1..][n - 1];
      n
    else 0
  }

  lemma {:induction false} LeadingSpacesAreSpaces(s: string)
    ensures forall i :: 0 <= i < LeadingSpaces(s) ==> IsSpace(s[i])
  {
    if s != [] && IsSpace(s[0]) {
      LeadingSpacesAreSpaces(s[1..]);
      assert forall i :: 0 < i < LeadingSpaces(s) ==> s[i] == s[1..][i - 1];
    }
  }

  /** The length of `s` once its trailing whitespace is dropped. */
  function TrimmedEnd(s: string): (n: nat)
    ensures n <= |s|
    ensures n == 0 || !IsSpace(s[n - 1])
  {
    if s != [] && IsSpace(s[|s| - 1]) then
      var n := TrimmedEnd(s[..|s| - 1]);
      assert n > 0 ==> s[n - 1] == s[..|s| - 1][n - 1];
      n
    else |s|
  }

  lemma {:induction false} TrailingSpacesAreSpaces(s: string)
    ensures forall i :: TrimmedEnd(s) <= i < |s| ==> IsSpace(s[i])
  {
    if s != [] && IsSpace(s[|s| - 1]) {
      TrailingSpacesAreSpaces(s[..|s| - 1]);
      assert forall i :: TrimmedEnd(s) <= i < |s| - 1 ==> s[i] == s[..|s| - 1][i];
    }
  }

  /** `s.lstrip()`: drops exactly the leading whitespace. */
  function LStrip(s: string): (r: string)
    ensures |r| <= |s| && r == s[|s| - |r|..]
    ensures r == [] || !IsSpace(r[0])
  {
    s[LeadingSpaces(s)..]
  }

  /** What lstrip drops is whitespace. */
  lemma LStripDropsSpaces(s: string)
    ensures forall i :: 0 <= i < |s| - |LStrip(s)| ==> IsSpace(s[i])
  {
    LeadingSpacesAreSpaces(s);
  }

  /** `s.strip()`: the slice of `s` left once whitespace is dropped from both ends. */
  function Strip(s: string): string {
    var a := LeadingSpaces(s);
    s[a..a + TrimmedEnd(s[a..])]
  }

  /** The stripped text is a slice of `s` that neither starts nor ends with
      whitespace, a text already in that shape is left alone, and stripping
      keeps a text free of adjacent whitespace. */
  lemma StripSpec(s: string)
    ensures |Strip(s)| <= |s| && forall c :: c in Strip(s) ==> c in s
    ensures Strip(s) == [] || (!IsSpace(Strip(s)[0]) && !IsSpace(Strip(s)[|Strip(s)| - 1]))
    ensures (s == [] || (!IsSpace(s[0]) && !IsSpace(s[|s| - 1]))) ==> Strip(s) == s
    ensures NoAdjacentSpaces(s) ==> NoAdjacentSpaces(Strip(s))
  {
    StripChars(s);
    StripTrimsEnds(s);
    StripOfTrimmedText(s);
    StripKeepsNoAdjacentSpaces(s);
  }

  lemma StripChars(s: string)
    ensures |Strip(s)| <= |s| && forall c :: c in Strip(s) ==> c in s
  {
    var a := LeadingSpaces(s);
    var b := a + TrimmedEnd(s[a..]);
    StripEnds(s, a, b);
    SliceChars(s, a, b);
  }

  lemma StripTrimsEnds(s: string)
    ensures Strip(s) == [] || (!IsSpace(Strip(s)[0]) && !IsSpace(Strip(s)[|Strip(s)| - 1]))
  {
    var a := LeadingSpaces(s);
    var b := a + TrimmedEnd(s[a..]);
    StripEnds(s, a, b);
    var r := s[a..b];
    assert a < b ==> r[0] == s[a] && r[b - a - 1] == s[b - 1];
  }

  lemma StripOfTrimmedText(s: string)
    ensures (s == [] || (!IsSpace(s[0]) && !IsSpace(s[|s| - 1]))) ==> Strip(s) == s
  {
    var a := LeadingSpaces(s);
    StripOfTrimmed(s, a, a + TrimmedEnd(s[a..]));
  }

  lemma StripKeepsNoAdjacentSpaces(s: string)
    ensures NoAdjacentSpaces(s) ==> NoAdjacentSpaces(Strip(s))
  {
    var a := LeadingSpaces(s);
    var b := a + TrimmedEnd(s[a..]);
    StripEnds(s, a, b);
    NoAdjacentSpacesSlice(s, a, b);
  }

  lemma StripEnds(s: string, a: nat, b: nat)
    requires a == LeadingSpaces(s) && b == a + TrimmedEnd(s[a..])
    ensures a <= b <= |s|
    ensures a < b ==> !IsSpace(s[a]) && !IsSpace(s[b - 1])
  {
    var t := s[a..];
    assert a < b ==> t[0] == s[a] && t[b - a - 1] == s[b - 1];
  }

  lemma SliceChars(s: string, a: nat, b: nat)
    requires a <= b <= |s|
    ensures forall c :: c in s[a..b] ==> c in s
  {
    forall c | c in s[a..b] ensures c in s {
      var i :| 0 <= i < b - a && s[a..b][i] == c;
      assert s[a + i] == c;
    }
  }

  lemma StripOfTrimmed(s: string, a: nat, b: nat)
    requires a == LeadingSpaces(s) && b == a + TrimmedEnd(s[a..])
    ensures (s == [] || (!IsSpace(s[0]) && !IsSpace(s[|s| - 1]))) ==> s[a..b] == s
  {
    if s != [] && !IsSpace(s[0]) && !IsSpace(s[|s| - 1]) {
      assert a == 0 && s[a..] == s;
    }
  }

  /** True of a string that contains no whitespace character next to another one. */
  ghost predicate NoAdjacentSpaces(s: string) {
    forall i :: 0 <= i < |s| - 1 ==> !SpaceRunAt(s, i)
  }

  /** Positions i and i + 1 of `s` both hold whitespace. */
  predicate SpaceRunAt(s: string, i: int)
    requires 0 <= i < |s| - 1
  {
    IsSpace(s[i]) && IsSpace(s[i + 1])
  }

  /** `re.sub(r"\s+", " ", s)`: every maximal run of whitespace becomes a single space. */
  function CollapseSpaces(s: string): (r: string)
    ensures (r == []) == (s == [])
    ensures r != [] ==> IsSpace(r[0]) == IsSpace(s[0])
    decreases |s|
  {
    if s == [] then []
    else if IsSpace(s[0]) then " " + CollapseSpaces(LStrip(s[1..]))
    else [s[0]] + CollapseSpaces(s[1..])
  }

  /** Collapsing brings in no character but the plain space. */
  lemma {:induction false} CollapseSpacesChars(s: string)
    ensures forall c :: c in CollapseSpaces(s) ==> c == ' ' || c in s
    decreases |s|
  {
    if s != [] {
      var t := if IsSpace(s[0]) then LStrip(s[1..]) else s[1..];
      CollapseSpacesChars(t);
      var a := |s| - |t|;
      assert t == s[a..];
      SliceChars(s, a, |s|);
      assert s[a..|s|] == s[a..];
      assert CollapseSpaces(s) == [CollapseSpaces(s)[0]] + CollapseSpaces(t);
    }
  }

  /** The collapsed text has no two whitespace characters in a row, and its
      only whitespace character is the plain space. */
  lemma {:induction false} CollapseSpacesShape(s: string)
    ensures NoAdjacentSpaces(CollapseSpaces(s))
    ensures forall i :: 0 <= i < |CollapseSpaces(s)| && IsSpace(CollapseSpaces(s)[i]) ==> CollapseSpaces(s)[i] == ' '
    decreases |s|
  {
    if s != [] {
      var r := CollapseSpaces(s);
      var t := if IsSpace(s[0]) then LStrip(s[1..]) else s[1..];
      var rest := CollapseSpaces(t);
      CollapseSpacesShape(t);
      assert r == [r[0]] + rest;
      assert IsSpace(s[0]) ==> rest == [] || !IsSpace(rest[0]);
      forall i | 0 <= i < |r| - 1 ensures !SpaceRunAt(r, i) {
        assert r[i + 1] == rest[i];
        if i > 0 {
          assert r[i] == rest[i - 1];
          assert !SpaceRunAt(rest, i - 1);
        }
      }
      forall i | 0 < i < |r| ensures IsSpace(r[i]) ==> r[i] == ' ' {
        assert r[i] == rest[i - 1];
      }
    }
  }

  lemma {:induction false} NoAdjacentSpacesSlice(s: string, a: nat, b: nat)
    requires a <= b <= |s|
    ensures NoAdjacentSpaces(s) ==> NoAdjacentSpaces(s[a..b])
  {
    if NoAdjacentSpaces(s) {
      forall i | 0 <= i < b - a - 1 ensures !SpaceRunAt(s[a..b], i) {
        assert s[a..b][i] == s[a + i] && s[a..b][i + 1] == s[a + i + 1];
        assert !SpaceRunAt(s, a + i);
      }
    }
  }

  /** `s.replace(c, rep)` for a one-character pattern: each occurrence of `c` becomes `rep`. */
  function ReplaceChar(s: string, c: char, rep: string): (r: string)
    ensures c !in rep ==> c !in r
    ensures forall x :: x in r ==> (x in s && x != c) || x in rep
    ensures c !in s ==> r == s
  {
    if s == [] then []
    else (if s[0] == c then rep else [s[0]]) + ReplaceChar(s[1..], c, rep)
  }

  /** `s.lower()` on the ASCII letters. Other letters are left as they are;
      the texts searched for in lower-cased text here are ASCII. */
  function Lower(s: string): (r: string)
    ensures |r| == |s|
    ensures forall i :: 0 <= i < |s| ==> r[i] == (if 'A' <= s[i] <= 'Z' then (s[i] as int + 32) as char else s[i])
  {
    if s == [] then [] else
      var c := s[0];
      [if 'A' <= c <= 'Z' then (c as int + 32) as char else c] + Lower(s[1..])
  }

  /** `s.upper()` on the ASCII letters. */
  function Upper(s: string): (r: string)
    ensures |r| == |s|
    ensures forall i :: 0 <= i < |s| ==> r[i] == (if 'a' <= s[i] <= 'z' then (s[i] as int - 32) as char else s[i])
  {
    if s == [] then [] else
      var c := s[0];
      [if 'a' <= c <= 'z' then (c as int - 32) as char else c] + Upper(s[1..])
  }

  /** Lower-casing twice changes nothing more. */
  lemma LowerIdempotent(s: string)
    ensures Lower(Lower(s)) == Lower(s)
  {
    var l := Lower(s);
    forall i | 0 <= i < |l| ensures Lower(l)[i] == l[i] {
      assert !('A' <= l[i] <= 'Z');
    }
  }

  predicate StartsWith(s: string, prefix: string) {
    |prefix| <= |s| && s[..|prefix|] == prefix
  }

  predicate EndsWith(s: string, suffix: string) {
    |suffix| <= |s| && s[|s| - |suffix|..] == suffix
  }

  /** `sub in s`. */
  predicate Contains(s: string, sub: string)
    decreases |s|
  {
    StartsWith(s, sub) || (s != [] && Contains(s[1..], sub))
  }

  lemma {:induction false} ContainsAt(s: string, sub: string, i: nat)
    requires i + |sub| <= |s| && s[i..i + |sub|] == sub
    ensures Contains(s, sub)
  {
    if i > 0 {
      assert s[1..][i - 1..i - 1 + |sub|] == s[i..i + |sub|];
      ContainsAt(s[1..], sub, i - 1);
    }
  }

  /** `s.rfind(c)`: the position of the last `c`, or -1. */
  function RFind(s: string, c: char): (r: int)
    ensures -1 <= r < |s|
    ensures r >= 0 ==> s[r] == c
    ensures forall j :: r < j < |s| ==> s[j] != c
  {
    if s == [] then -1
    else if s[|s| - 1] == c then |s| - 1
    else RFind(s[..|s| - 1], c)
  }

  /** Python's `str` ordering: code point by code point, a proper prefix first. */
  predicate LexLe(a: string, b: string) {
    a == [] || (b != [] && (a[0] < b[0] || (a[0] == b[0] && LexLe(a[1..], b[1..]))))
  }

  lemma {:induction false} LexLeTotal(a: string, b: string)
    ensures LexLe(a, b) || LexLe(b, a)
  {
    if a != [] && b != [] && a[0] == b[0] {
      LexLeTotal(a[1..], b[1..]);
    }
  }

  lemma {:induction false} LexLeReflexive(a: string)
    ensures LexLe(a, a)
  {
    if a != [] {
      LexLeReflexive(a[1..]);
    }
  }

  lemma {:induction false} LexLeAntisymmetric(a: string, b: string)
    requires LexLe(a, b) && LexLe(b, a)
    ensures a == b
  {
    if a != [] && b != [] {
      LexLeAntisymmetric(a[1..], b[1..]);
      assert a == [a[0]] + a[1..] && b == [b[0]] + b[1..];
    }
  }

  lemma {:induction false} LexLeTransitive(a: string, b: string, c: string)
    requires LexLe(a, b) && LexLe(b, c)
    ensures LexLe(a, c)
  {
    if a != [] && b != [] && c != [] && a[0] == b[0] == c[0] {
      LexLeTransitive(a[1..], b[1..], c[1..]);
    }
  }

  function DigitChar(d: nat): (c: char)
    requires d < 10
    ensures '0' <= c <= '9'
  {
    ('0' as int + d) as char
  }

  /** `str(n)` for a non-negative integer: its decimal digits, no leading zero. */
  function NatToString(n: nat): (r: string)
    ensures |r| >= 1
    ensures forall i :: 0 <= i < |r| ==> '0' <= r[i] <= '9'
    ensures n >= 10 ==> |r| >= 2
  {
    if n < 10 then [DigitChar(n)] else NatToString(n / 10) + [DigitChar(n % 10)]
  }

  /** Distinct numbers have distinct decimal renderings. */
  lemma {:induction false} NatToStringInjective(m: nat, n: nat)
    requires NatToString(m) == NatToString(n)
    ensures m == n
  {
    if m >= 10 && n >= 10 {
      var sm, sn := NatToString(m), NatToString(n);
      assert sm[|sm| - 1] == DigitChar(m % 10) && sn[|sn| - 1] == DigitChar(n % 10);
      assert sm[..|sm| - 1] == NatToString(m / 10) && sn[..|sn| - 1] == NatToString(n / 10);
      NatToStringInjective(m / 10, n / 10);
    }
  }

  /** `str(n)` for an integer. */
  function IntToString(n: int): (r: string)
    ensures |r| >= 1
    ensures (r[0] == '-') == (n < 0)
  {
    if n < 0 then "-" + NatToString(-n) else NatToString(n)
  }
}
