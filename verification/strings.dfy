/**
 * The parts of java.lang.String that the file manager relies on, written out
 * as Java defines them (trim strips every char <= U+0020, compareTo works on
 * UTF-16 code units, split drops trailing empty parts).  Case mapping covers
 * ASCII letters only.
 */
module JavaStrings {

  /** toLowerCase on one char, ASCII letters only. */
  function LowerChar(c: char): char {
    if 'A' <= c <= 'Z' then (c as int + 32) as char else c
  }

  function UpperChar(c: char): char {
    if 'a' <= c <= 'z' then (c as int - 32) as char else c
  }

  function Lower(s: string): (r: string)
    ensures |r| == |s|
    ensures forall i | 0 <= i < |s| :: r[i] == LowerChar(s[i])
  {
    seq(|s|, i requires 0 <= i < |s| => LowerChar(s[i]))
  }

  function Upper(s: string): (r: string)
    ensures |r| == |s|
    ensures forall i | 0 <= i < |s| :: r[i] == UpperChar(s[i])
  {
    seq(|s|, i requires 0 <= i < |s| => UpperChar(s[i]))
  }

  /** String.equalsIgnoreCase, ASCII case folding. */
  predicate EqualsIgnoreCase(a: string, b: string) {
    Lower(a) == Lower(b)
  }

  lemma LowerIdempotent(s: string)
    ensures Lower(Lower(s)) == Lower(s)
  {
  }

  /** The chars String.trim removes: every code point up to the space. */
  predicate IsBlank(c: char) {
    c <= ' '
  }

  function TrimStart(s: string): (r: string)
    ensures |r| <= |s| && r == s[|s| - |r|..]
    ensures r == [] || !IsBlank(r[0])
    ensures forall i | 0 <= i < |s| - |r| :: IsBlank(s[i])
  {
    if s != [] && IsBlank(s[0]) then TrimStart(s[1..]) else s
  }

  function TrimEnd(s: string): (r: string)
    ensures |r| <= |s| && r == s[..|r|]
    ensures r == [] || !IsBlank(r[|r| - 1])
    ensures forall i | |r| <= i < |s| :: IsBlank(s[i])
    ensures s != [] && !IsBlank(s[0]) ==> r != []
  {
    if s != [] && IsBlank(s[|s| - 1]) then TrimEnd(s[..|s| - 1]) else s
  }

  /** String.trim. */
  function Trim(s: string): (r: string)
    ensures |r| <= |s|
    ensures r == [] || (!IsBlank(r[0]) && !IsBlank(r[|r| - 1]))
  {
    TrimEnd(TrimStart(s))
  }

  lemma TrimOfTrimmed(s: string)
    requires s == [] || (!IsBlank(s[0]) && !IsBlank(s[|s| - 1]))
    ensures Trim(s) == s
  {
  }

  lemma TrimIdempotent(s: string)
    ensures Trim(Trim(s)) == Trim(s)
  {
    TrimOfTrimmed(Trim(s));
  }

  /** A string whose first char is not blank keeps that char in front after trim. */
  lemma TrimKeepsNonBlankHead(s: string)
    requires s != [] && !IsBlank(s[0])
    ensures Trim(s) != [] && Trim(s)[0] == s[0]
  {
  }

  /** Trim strictly shortens a string that starts with a blank. */
  lemma TrimShortensBlankHead(s: string)
    requires s != [] && IsBlank(s[0])
    ensures |Trim(s)| < |s|
  {
  }

  predicate StartsWith(s: string, prefix: string) {
    |prefix| <= |s| && s[..|prefix|] == prefix
  }

  predicate EndsWith(s: string, suffix: string) {
    |suffix| <= |s| && s[|s| - |suffix|..] == suffix
  }

  predicate OccursAt(s: string, p: string, i: int) {
    0 <= i && i + |p| <= |s| && s[i..i + |p|] == p
  }

  /** String.contains. */
  predicate Contains(s: string, p: string) {
    exists i | 0 <= i <= |s| - |p| :: OccursAt(s, p, i)
  }

  /** String.lastIndexOf for one char; -1 when absent. */
  function LastIndexOf(s: string, c: char): (r: int)
    ensures -1 <= r < |s|
    ensures r >= 0 ==> s[r] == c
    ensures forall i | r < i < |s| :: s[i] != c
  {
    if s == [] then -1
    else if s[|s| - 1] == c then |s| - 1
    else LastIndexOf(s[..|s| - 1], c)
  }

  /**
   * Replacement of every non-overlapping occurrence of a literal, scanning left
   * to right, as String.replace does (and as String.replaceAll does for a
   * pattern without metacharacters).  The empty pattern matches before every
   * char and at the end, as in Java.
   */
  function ReplaceAllLiteral(s: string, pat: string, rep: string): string
    decreases |s|, |pat|
  {
    if pat == [] then
      if s == [] then rep else rep + [s[0]] + ReplaceAllLiteral(s[1..], pat, rep)
    else if |s| < |pat| then s
    else if s[..|pat|] == pat then rep + ReplaceAllLiteral(s[|pat|..], pat, rep)
    else [s[0]] + ReplaceAllLiteral(s[1..], pat, rep)
  }

  lemma {:induction false} ReplaceAllAbsent(s: string, pat: string, rep: string)
    requires pat != [] && !Contains(s, pat)
    ensures ReplaceAllLiteral(s, pat, rep) == s
    decreases |s|
  {
    if |s| >= |pat| {
      assert !OccursAt(s, pat, 0);
      if !Contains(s[1..], pat) {
        ReplaceAllAbsent(s[1..], pat, rep);
      } else {
        var i :| 0 <= i <= |s[1..]| - |pat| && OccursAt(s[1..], pat, i);
        assert OccursAt(s, pat, i + 1);
        assert false;
      }
    }
  }

  /**
   * String.length(): the number of UTF-16 code units, two for a character
   * outside the Basic Multilingual Plane.
   */
  function Utf16Length(s: string): (n: nat)
    ensures |s| <= n <= 2 * |s|
  {
    if s == [] then 0
    else Utf16Length(s[..|s| - 1]) + (if s[|s| - 1] as int >= 0x1_0000 then 2 else 1)
  }

  /** A string within the Basic Multilingual Plane has one code unit per character. */
  lemma {:induction false} Utf16LengthOfBmp(s: string)
    requires forall i | 0 <= i < |s| :: s[i] as int < 0x1_0000
    ensures Utf16Length(s) == |s|
  {
    if s != [] {
      Utf16LengthOfBmp(s[..|s| - 1]);
    }
  }

  /** Each character outside the Basic Multilingual Plane adds a second code unit. */
  lemma {:induction false} Utf16LengthOfAstral(s: string)
    requires forall i | 0 <= i < |s| :: s[i] as int >= 0x1_0000
    ensures Utf16Length(s) == 2 * |s|
  {
    if s != [] {
      Utf16LengthOfAstral(s[..|s| - 1]);
    }
  }

  lemma {:induction false} Utf16LengthAppend(a: string, b: string)
    ensures Utf16Length(a + b) == Utf16Length(a) + Utf16Length(b)
    decreases |b|
  {
    if b == [] {
      assert a + b == a;
    } else {
      assert (a + b)[..|a + b| - 1] == a + b[..|b| - 1];
      assert (a + b)[|a + b| - 1] == b[|b| - 1];
      Utf16LengthAppend(a, b[..|b| - 1]);
    }
  }

  /** The first UTF-16 code unit of a char: the char itself, or its high surrogate. */
  function HighUnit(c: char): (u: int)
    ensures c as int < 0x1_0000 ==> u == c as int
    ensures c as int >= 0x1_0000 ==> 0xD800 <= u < 0xDC00
  {
    if c as int < 0x1_0000 then c as int else 0xD800 + (c as int - 0x1_0000) / 0x400
  }

  /** The second UTF-16 code unit of a supplementary char, its low surrogate. */
  function LowUnit(c: char): (u: int)
    requires c as int >= 0x1_0000
    ensures 0xDC00 <= u < 0xE000
  {
    0xDC00 + (c as int - 0x1_0000) % 0x400
  }

  /** The UTF-16 encoding of one char. */
  function CharUnits(c: char): (u: seq<int>)
    ensures |u| == if c as int < 0x1_0000 then 1 else 2
    ensures u[0] == HighUnit(c)
  {
    if c as int < 0x1_0000 then [c as int] else [HighUnit(c), LowUnit(c)]
  }

  /** The UTF-16 code units Java stores for a string. */
  function Utf16Units(s: string): (u: seq<int>)
    ensures |u| == Utf16Length(s)
  {
    if s == [] then []
    else
      assert s == [s[0]] + s[1..];
      Utf16LengthAppend([s[0]], s[1..]);
      CharUnits(s[0]) + Utf16Units(s[1..])
  }

  /** A char never encodes to a surrogate on its own, so the first unit decides whether a pair follows. */
  lemma SameHighUnit(c: char, d: char)
    requires HighUnit(c) == HighUnit(d)
    ensures (c as int < 0x1_0000) == (d as int < 0x1_0000)
  {
  }

  /** Two chars with the same two code units are the same char. */
  lemma SameUnits(c: char, d: char)
    requires c as int >= 0x1_0000 && d as int >= 0x1_0000
    requires HighUnit(c) == HighUnit(d) && LowUnit(c) == LowUnit(d)
    ensures c == d
  {
    var x, y := c as int - 0x1_0000, d as int - 0x1_0000;
    assert x == (x / 0x400) * 0x400 + x % 0x400;
    assert y == (y / 0x400) * 0x400 + y % 0x400;
  }

  /**
   * Where two strings first differ in a char, String.compareTo returns the
   * difference of their first differing code units: the high surrogates, or
   * the low ones when the high surrogates agree.
   */
  function UnitDiff(c: char, d: char): int {
    if HighUnit(c) != HighUnit(d) || c as int < 0x1_0000 then HighUnit(c) - HighUnit(d)
    else LowUnit(c) - LowUnit(d)
  }

  /** UnitDiff orders chars by their code units, read as a two-digit number. */
  function UnitRank(c: char): int {
    HighUnit(c) * 0x1_0000 + (if c as int < 0x1_0000 then 0 else LowUnit(c))
  }

  lemma UnitDiffSign(c: char, d: char)
    ensures UnitDiff(c, d) < 0 <==> UnitRank(c) < UnitRank(d)
    ensures UnitDiff(c, d) == 0 <==> c == d
  {
    if HighUnit(c) == HighUnit(d) {
      SameHighUnit(c, d);
      if c as int >= 0x1_0000 && LowUnit(c) == LowUnit(d) {
        SameUnits(c, d);
      }
    }
  }

  /**
   * String.compareTo: the difference of the first differing UTF-16 code
   * units, or else the difference of the lengths in code units.
   */
  function JavaCompare(a: string, b: string): int
    decreases |a|
  {
    if a == [] || b == [] then Utf16Length(a) - Utf16Length(b)
    else if a[0] != b[0] then UnitDiff(a[0], b[0])
    else JavaCompare(a[1..], b[1..])
  }

  /** Java's loop over the code units of both strings. */
  function UnitCompare(u: seq<int>, v: seq<int>): int
    decreases |u|
  {
    if u == [] || v == [] then |u| - |v|
    else if u[0] != v[0] then u[0] - v[0]
    else UnitCompare(u[1..], v[1..])
  }

  lemma {:induction false} UnitCompareCommonPrefix(p: seq<int>, u: seq<int>, v: seq<int>)
    ensures UnitCompare(p + u, p + v) == UnitCompare(u, v)
    decreases |p|
  {
    if p == [] {
      assert p + u == u && p + v == v;
    } else {
      assert (p + u)[0] == p[0] == (p + v)[0];
      assert (p + u)[1..] == p[1..] + u && (p + v)[1..] == p[1..] + v;
      UnitCompareCommonPrefix(p[1..], u, v);
    }
  }

  /** The leading code units of a non-empty string are those of its first char. */
  lemma LeadingUnits(s: string)
    requires s != []
    ensures Utf16Units(s)[0] == HighUnit(s[0])
    ensures s[0] as int >= 0x1_0000 ==> |Utf16Units(s)| >= 2 && Utf16Units(s)[1] == LowUnit(s[0])
  {
    assert Utf16Units(s) == CharUnits(s[0]) + Utf16Units(s[1..]);
  }

  /** At the first differing char, Java's loop stops at that char's units. */
  lemma FirstDifferingChar(a: string, b: string)
    requires a != [] && b != [] && a[0] != b[0]
    ensures UnitCompare(Utf16Units(a), Utf16Units(b)) == UnitDiff(a[0], b[0])
  {
    LeadingUnits(a);
    LeadingUnits(b);
    var c, d := a[0], b[0];
    if HighUnit(c) == HighUnit(d) && c as int >= 0x1_0000 {
      SameHighUnit(c, d);
      if LowUnit(c) == LowUnit(d) {
        SameUnits(c, d);
      }
      var u, v := Utf16Units(a), Utf16Units(b);
      assert UnitCompare(u, v) == UnitCompare(u[1..], v[1..]);
    }
  }

  /** JavaCompare is String.compareTo read off the UTF-16 encodings. */
  lemma {:induction false} CompareIsUnitCompare(a: string, b: string)
    ensures JavaCompare(a, b) == UnitCompare(Utf16Units(a), Utf16Units(b))
    decreases |a|
  {
    if a != [] && b != [] {
      if a[0] == b[0] {
        UnitCompareCommonPrefix(CharUnits(a[0]), Utf16Units(a[1..]), Utf16Units(b[1..]));
        CompareIsUnitCompare(a[1..], b[1..]);
      } else {
        FirstDifferingChar(a, b);
      }
    }
  }

  /** A supplementary char sorts before a fullwidth letter (U+FF21), as its high surrogate does. */
  lemma SupplementaryBeforeFullwidth()
    ensures JavaCompare("\U{1F600}", "\U{FF21}") < 0
  {
  }

  lemma {:induction false} CompareAntisymmetric(a: string, b: string)
    ensures JavaCompare(a, b) == -JavaCompare(b, a)
    decreases |a|
  {
    if a != [] && b != [] && a[0] == b[0] {
      CompareAntisymmetric(a[1..], b[1..]);
    }
  }

  lemma {:induction false} CompareZeroIffEqual(a: string, b: string)
    ensures JavaCompare(a, b) == 0 <==> a == b
    decreases |a|
  {
    if a != [] && b != [] {
      UnitDiffSign(a[0], b[0]);
      if a[0] == b[0] {
        CompareZeroIffEqual(a[1..], b[1..]);
        assert a == [a[0]] + a[1..] && b == [b[0]] + b[1..];
      }
    }
  }

  lemma {:induction false} CompareTransitive(a: string, b: string, c: string)
    requires JavaCompare(a, b) <= 0 && JavaCompare(b, c) <= 0
    ensures JavaCompare(a, c) <= 0
    decreases |a|
  {
    if a != [] && b != [] && c != [] {
      UnitDiffSign(a[0], b[0]);
      UnitDiffSign(b[0], c[0]);
      UnitDiffSign(a[0], c[0]);
      if a[0] == b[0] && b[0] == c[0] {
        CompareTransitive(a[1..], b[1..], c[1..]);
      }
    }
  }

  /**
   * String.compareToIgnoreCase on strings already lowered: since Java 16 it
   * compares the first differing characters as whole code points, and
   * otherwise the lengths in code units.
   */
  function CodePointCompare(a: string, b: string): int
    decreases |a|
  {
    if a == [] || b == [] then Utf16Length(a) - Utf16Length(b)
    else if a[0] != b[0] then a[0] as int - b[0] as int
    else CodePointCompare(a[1..], b[1..])
  }

  /** Unlike String.compareTo, code-point order puts a supplementary char after a fullwidth letter. */
  lemma SupplementaryAfterFullwidth()
    ensures CodePointCompare("\U{1F600}", "\U{FF21}") > 0
  {
  }

  lemma {:induction false} CodePointCompareAntisymmetric(a: string, b: string)
    ensures CodePointCompare(a, b) == -CodePointCompare(b, a)
    decreases |a|
  {
    if a != [] && b != [] && a[0] == b[0] {
      CodePointCompareAntisymmetric(a[1..], b[1..]);
    }
  }

  lemma {:induction false} CodePointCompareZeroIffEqual(a: string, b: string)
    ensures CodePointCompare(a, b) == 0 <==> a == b
    decreases |a|
  {
    if a != [] && b != [] && a[0] == b[0] {
      CodePointCompareZeroIffEqual(a[1..], b[1..]);
      assert a == [a[0]] + a[1..] && b == [b[0]] + b[1..];
    }
  }

  lemma {:induction false} CodePointCompareTransitive(a: string, b: string, c: string)
    requires CodePointCompare(a, b) <= 0 && CodePointCompare(b, c) <= 0
    ensures CodePointCompare(a, c) <= 0
    decreases |a|
  {
    if a != [] && b != [] && c != [] && a[0] == b[0] && b[0] == c[0] {
      CodePointCompareTransitive(a[1..], b[1..], c[1..]);
    }
  }

  /** Decimal rendering of a natural number, as Long.toString. */
  function NatToString(n: nat): (r: string)
    ensures r != []
    ensures forall i | 0 <= i < |r| :: '0' <= r[i] <= '9'
  {
    if n < 10 then [(n + '0' as int) as char]
    else NatToString(n / 10) + [(n % 10 + '0' as int) as char]
  }

  /** Every part of s between occurrences of sep, empty parts included. */
  function SplitAll(s: string, sep: char): (r: seq<string>)
    ensures |r| >= 1
    ensures forall i | 0 <= i < |r| :: sep !in r[i]
  {
    if s == [] then [[]]
    else
      var rest := SplitAll(s[1..], sep);
      if s[0] == sep then [[]] + rest else [[s[0]] + rest[0]] + rest[1..]
  }

  lemma {:induction false} SplitAllNoSeparator(s: string, sep: char)
    requires sep !in s
    ensures SplitAll(s, sep) == [s]
  {
    if s != [] {
      SplitAllNoSeparator(s[1..], sep);
      assert [s[0]] + s[1..] == s;
    }
  }

  /** One separator between a and b splits into a and b. */
  lemma {:induction false} SplitAllAround(a: string, b: string, sep: char)
    requires sep !in a && sep !in b
    ensures SplitAll(a + [sep] + b, sep) == [a, b]
  {
    if a == [] {
      assert [] + [sep] + b == [sep] + b;
      assert ([sep] + b)[1..] == b;
      SplitAllNoSeparator(b, sep);
    } else {
      assert (a + [sep] + b)[1..] == a[1..] + [sep] + b;
      SplitAllAround(a[1..], b, sep);
      assert [a[0]] + a[1..] == a;
    }
  }

  /** With a non-empty second part, split on the one separator gives both parts. */
  lemma SplitAround(a: string, b: string, sep: char)
    requires sep !in a && sep !in b && b != []
    ensures Split(a + [sep] + b, sep) == [a, b]
  {
    SplitAllAround(a, b, sep);
    assert (a + [sep] + b)[|a|] == sep;
  }

  function DropTrailingEmpty(parts: seq<string>): (r: seq<string>)
    ensures |r| <= |parts| && r == parts[..|r|]
    ensures r == [] || r[|r| - 1] != []
  {
    if parts != [] && parts[|parts| - 1] == [] then DropTrailingEmpty(parts[..|parts| - 1]) else parts
  }

  /**
   * String.split with a one-char separator and no limit: the input itself when
   * the separator does not occur, otherwise the parts without trailing empty ones.
   */
  function Split(s: string, sep: char): (r: seq<string>)
    ensures sep !in s ==> r == [s]
    ensures forall i | 0 <= i < |r| :: sep !in r[i]
  {
    if sep !in s then [s] else DropTrailingEmpty(SplitAll(s, sep))
  }
}
