/**
 * The string rules of Renomeador that need no service: the '+' folding, the
 * noise-catalog pass (`replaces`), and the result processNumbers computes.
 * The noise catalog (the STRINGSTOFILTER bundle) is a parameter; its entries
 * are read as literal text, which they are as long as they hold no regular
 * expression metacharacter.
 */
module RenomeadorRules {
  import opened Wrappers
  import opened JavaErrors
  import opened JavaStrings

  /** s with every occurrence of target turned into sub. */
  function Substituted(s: string, target: char, sub: char): (r: string)
    ensures |r| == |s|
    ensures forall i | 0 <= i < |s| :: r[i] == (if s[i] == target then sub else s[i])
  {
    seq(|s|, i requires 0 <= i < |s| => if s[i] == target then sub else s[i])
  }

  /** After folding, no '+' is left. */
  lemma NoPlusRemains(s: string)
    ensures '+' !in Substituted(s, '+', ' ')
  {
    var r := Substituted(s, '+', ' ');
    assert forall i | 0 <= i < |r| :: r[i] != '+';
  }

  /** Folding changes nothing in a string without '+'. */
  lemma SubstitutedWithoutTarget(s: string, target: char, sub: char)
    requires target !in s
    ensures Substituted(s, target, sub) == s
  {
  }

  /**
   * doReplacement for a one-char substitute: rewrites the string position by
   * position; the length never changes, so every position is visited.
   */
  method DoReplacement(s: string, target: char, sub: char) returns (r: string)
    ensures r == Substituted(s, target, sub)
  {
    r := s;
    for i := 0 to |r|
      invariant |r| == |s|
      invariant forall m | 0 <= m < i :: r[m] == (if s[m] == target then sub else s[m])
      invariant forall m | i <= m < |s| :: r[m] == s[m]
    {
      if r[i] == target {
        r := r[..i] + [sub] + r[i + 1..];
      }
    }
  }

  /** One catalog entry: replaced by a space wherever it occurs, then trim. */
  function DenoiseStep(t: string, filter: string): (r: string)
    ensures r == Trim(r)
  {
    TrimIdempotent(if Contains(t, filter) then ReplaceAllLiteral(t, filter, " ") else t);
    Trim(if Contains(t, filter) then ReplaceAllLiteral(t, filter, " ") else t)
  }

  /** The catalog entries applied in catalog order. */
  function Denoise(catalog: seq<string>, s: string): string {
    if catalog == [] then s
    else DenoiseStep(Denoise(catalog[..|catalog| - 1], s), catalog[|catalog| - 1])
  }

  /**
   * A trimmed string in which no (non-empty) catalog entry occurs comes out
   * unchanged.
   */
  lemma {:induction false} DenoiseKeepsClean(catalog: seq<string>, s: string)
    requires Trim(s) == s
    requires forall j | 0 <= j < |catalog| :: catalog[j] != [] && !Contains(s, catalog[j])
    ensures Denoise(catalog, s) == s
  {
    if catalog != [] {
      DenoiseKeepsClean(catalog[..|catalog| - 1], s);
      DenoiseStepClean(s, catalog[|catalog| - 1]);
    }
  }

  /** A trimmed string without the entry passes one step unchanged. */
  lemma DenoiseStepClean(t: string, filter: string)
    requires Trim(t) == t && filter != [] && !Contains(t, filter)
    ensures DenoiseStep(t, filter) == t
  {
  }

  /** An empty catalog entry occurs everywhere: a space goes before every char. */
  lemma EmptyEntrySpacesOut()
    ensures DenoiseStep("ab", "") == "a b"
  {
    assert Contains("ab", "") by { assert OccursAt("ab", "", 0); }
    EmptyEntryReplaced();
    EmptyEntryTrimmed();
  }

  lemma EmptyEntryReplaced()
    ensures ReplaceAllLiteral("ab", "", " ") == " a b "
  {
    assert ReplaceAllLiteral("", "", " ") == " ";
    assert ReplaceAllLiteral("b", "", " ") == " b ";
  }

  lemma EmptyEntryTrimmed()
    ensures Trim(" a b ") == "a b"
  {
    var s := " a b ";
    assert IsBlank(s[0]) && s[1..] == "a b " && !IsBlank('a');
    assert TrimStart(s) == "a b ";
    var t := "a b ";
    assert IsBlank(t[3]) && t[..3] == "a b" && !IsBlank('b');
    assert TrimEnd(t) == "a b";
  }

  /** The loop body of simpleReplacements for one catalog entry. */
  method ReplaceEntry(t: string, filter: string) returns (r: string)
    ensures r == DenoiseStep(t, filter)
  {
    r := t;
    if Contains(r, filter) {
      r := ReplaceAllLiteral(r, filter, " ");
    }
    r := Trim(r);
  }

  /**
   * simpleReplacements: fold '+' into a space, then for each catalog entry,
   * in order, replace it by a space where it occurs and trim.
   */
  method SimpleReplacements(catalog: seq<string>, s: string) returns (r: string)
    ensures r == Denoise(catalog, Substituted(s, '+', ' '))
  {
    r := DoReplacement(s, '+', ' ');
    ghost var folded := r;
    for j := 0 to |catalog|
      invariant r == Denoise(catalog[..j], folded)
    {
      assert catalog[..j + 1][..j] == catalog[..j] && catalog[..j + 1][j] == catalog[j];
      r := ReplaceEntry(r, catalog[j]);
    }
    assert catalog[..|catalog|] == catalog;
  }

  /** regexReplacements: its body is commented out, so it returns its input. */
  function RegexReplacements(s: string): (r: string)
    ensures r == s
  {
    s
  }

  /** What replaces computes. */
  function Replaced(catalog: seq<string>, s: string): string {
    RegexReplacements(Denoise(catalog, Substituted(s, '+', ' ')))
  }

  /** replaces: simpleReplacements, then regexReplacements. */
  method Replaces(catalog: seq<string>, s: string) returns (r: string)
    ensures r == Replaced(catalog, s)
  {
    r := SimpleReplacements(catalog, s);
    r := RegexReplacements(r);
  }

  /** The replaced name has no '+' left when the catalog does not bring one back. */
  lemma ReplacedOfCleanName(catalog: seq<string>, s: string)
    requires '+' !in s && Trim(s) == s
    requires forall j | 0 <= j < |catalog| :: catalog[j] != [] && !Contains(s, catalog[j])
    ensures Replaced(catalog, s) == s
  {
    SubstitutedWithoutTarget(s, '+', ' ');
    DenoiseKeepsClean(catalog, s);
  }

  // processNumbers

  predicate IsLowerLetter(c: char) {
    'a' <= c <= 'z'
  }

  /** Index of the first lowercase ASCII letter, or |t|. */
  function FirstLower(t: string): (k: nat)
    ensures k <= |t|
    ensures k < |t| ==> IsLowerLetter(t[k])
    ensures forall i | 0 <= i < k :: !IsLowerLetter(t[i])
  {
    if t == [] then 0
    else if IsLowerLetter(t[0]) then 0
    else 1 + FirstLower(t[1..])
  }

  /** Some exclusion, lowercased, starts the name. */
  predicate ExclusionPrefix(exclusions: seq<string>, s: string) {
    exists j | 0 <= j < |exclusions| :: StartsWith(s, Lower(exclusions[j]))
  }

  /**
   * What the stripping loop of processNumbers ends with: everything before
   * the first lowercase letter goes, and the rest is trimmed; with no such
   * letter the loop reaches charAt(0) on an empty string.
   */
  function StripToLetter(t: string): Result<string, Exception> {
    var k := FirstLower(t);
    if k == |t| then Err(StringIndexOutOfBounds) else Ok(Trim(t[k..]))
  }

  /** processNumbers: the name itself when an exclusion starts it, else the stripped name. */
  function ProcessedNumbers(exclusions: seq<string>, s: string): Result<string, Exception> {
    if ExclusionPrefix(exclusions, s) then Ok(s) else StripToLetter(s)
  }

  /**
   * processNumbers either keeps a name an exclusion starts, or returns a
   * trimmed substring of it that begins with a lowercase letter; it fails
   * exactly when the name has no lowercase letter.
   */
  lemma ProcessedNumbersShape(exclusions: seq<string>, s: string)
    ensures ExclusionPrefix(exclusions, s) ==> ProcessedNumbers(exclusions, s) == Ok(s)
    ensures !ExclusionPrefix(exclusions, s) ==>
      (ProcessedNumbers(exclusions, s).Err? <==> forall i | 0 <= i < |s| :: !IsLowerLetter(s[i]))
    ensures !ExclusionPrefix(exclusions, s) && ProcessedNumbers(exclusions, s).Ok? ==>
      var r := ProcessedNumbers(exclusions, s).value;
      && r != [] && IsLowerLetter(r[0]) && Trim(r) == r
      && exists i, j | 0 <= i <= j <= |s| :: r == s[i..j]
  {
    var k := FirstLower(s);
    if !ExclusionPrefix(exclusions, s) && k < |s| {
      var x := s[k..];
      TrimKeepsNonBlankHead(x);
      TrimIdempotent(x);
      var y := TrimStart(x);
      assert y == x;
      var r := TrimEnd(y);
      assert r == s[k..k + |r|];
    }
  }

  /** FirstLower is fixed by its three properties. */
  lemma FirstLowerUnique(t: string, k: nat)
    requires k <= |t| && (k < |t| ==> IsLowerLetter(t[k]))
    requires forall i | 0 <= i < k :: !IsLowerLetter(t[i])
    ensures FirstLower(t) == k
  {
  }

  /** Dropping a prefix without lowercase letters changes nothing. */
  lemma StripPrefixKeeps(t: string, k: nat)
    requires k <= |t| && forall i | 0 <= i < k :: !IsLowerLetter(t[i])
    ensures StripToLetter(t[k..]) == StripToLetter(t)
  {
    var f := FirstLower(t);
    FirstLowerUnique(t[k..], f - k);
    assert t[k..][f - k..] == t[f..];
  }

  /** Blanks at the end do not survive TrimEnd. */
  lemma {:induction false} TrimEndBlankSuffix(x: string, y: string)
    requires forall i | 0 <= i < |y| :: IsBlank(y[i])
    ensures TrimEnd(x + y) == TrimEnd(x)
    decreases |y|
  {
    if y == [] {
      assert x + y == x;
    } else {
      assert (x + y)[..|x + y| - 1] == x + y[..|y| - 1];
      TrimEndBlankSuffix(x, y[..|y| - 1]);
    }
  }

  /** Dropping a blank suffix changes nothing. */
  lemma StripSuffixKeeps(u: string, m: nat)
    requires m <= |u| && forall i | m <= i < |u| :: IsBlank(u[i])
    ensures StripToLetter(u[..m]) == StripToLetter(u)
  {
    var f := FirstLower(u);
    if f == |u| {
      FirstLowerUnique(u[..m], m);
    } else {
      FirstLowerUnique(u[..m], f);
      var x, y := u[f..m], u[m..];
      assert u[f..] == x + y;
      assert u[..m][f..] == x;
      TrimEndBlankSuffix(x, y);
    }
  }

  /** Trimming changes nothing. */
  lemma StripTrimKeeps(t: string)
    ensures StripToLetter(Trim(t)) == StripToLetter(t)
  {
    var u := TrimStart(t);
    StripPrefixKeeps(t, |t| - |u|);
    var r := TrimEnd(u);
    StripSuffixKeeps(u, |r|);
  }
}
