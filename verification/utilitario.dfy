/** Utilitario: the two string helpers shared by the renaming operations. */
module Utilitario {
  import opened Wrappers
  import opened JavaErrors
  import opened JavaStrings

  datatype NameParts = NameParts(base: string, ext: string)

  /**
   * splitExtension: the name before and after its last '.'.  Without a dot,
   * substring(0, -1) throws.
   */
  function SplitExtension(name: string): (r: Result<NameParts, Exception>)
    ensures r.Ok? <==> '.' in name
    ensures r.Ok? ==> r.value.base + "." + r.value.ext == name && '.' !in r.value.ext
  {
    var k := LastIndexOf(name, '.');
    if k < 0 then Err(StringIndexOutOfBounds)
    else
      assert name == name[..k] + "." + name[k + 1..];
      Ok(NameParts(name[..k], name[k + 1..]))
  }

  /** Joining a base and a dot-free extension with '.' and splitting again gives them back. */
  lemma SplitExtensionOfJoin(base: string, ext: string)
    requires '.' !in ext
    ensures SplitExtension(base + "." + ext) == Ok(NameParts(base, ext))
  {
    var name := base + "." + ext;
    assert name[|base|] == '.';
    var r := SplitExtension(name);
    var k := LastIndexOf(name, '.');
    assert forall m | |base| < m < |name| :: name[m] == ext[m - |base| - 1];
    assert k == |base|;
    assert name[..k] == base && name[k + 1..] == ext;
  }

  /** Index of the last space at or before j, or -1. */
  function SpaceAtOrBefore(s: string, j: int): (r: int)
    requires -1 <= j < |s|
    ensures -1 <= r <= j
    ensures r >= 0 ==> s[r] == ' '
    ensures forall m | r < m <= j :: s[m] != ' '
    decreases j + 1
  {
    if j < 0 then -1
    else if s[j] == ' ' then j
    else SpaceAtOrBefore(s, j - 1)
  }

  /** Index of the first space at or after k, or |s|. */
  function SpaceAtOrAfter(s: string, k: nat): (r: int)
    requires k <= |s|
    ensures k <= r <= |s|
    ensures r < |s| ==> s[r] == ' '
    ensures forall m | k <= m < r :: s[m] != ' '
    decreases |s| - k
  {
    if k == |s| then |s|
    else if s[k] == ' ' then k
    else SpaceAtOrAfter(s, k + 1)
  }

  /** The run of non-space chars around index i. */
  function Block(s: string, i: nat): string
    requires i < |s| && s[i] != ' '
  {
    s[SpaceAtOrBefore(s, i) + 1..SpaceAtOrAfter(s, i)]
  }

  /**
   * The block is the maximal space-free substring containing index i: it
   * stops at a space or at an end of the string on either side.
   */
  lemma BlockIsMaximalRun(s: string, i: nat)
    requires i < |s| && s[i] != ' '
    ensures exists b, e | 0 <= b <= i < e <= |s| ::
      && Block(s, i) == s[b..e]
      && (forall m | b <= m < e :: s[m] != ' ')
      && (b == 0 || s[b - 1] == ' ')
      && (e == |s| || s[e] == ' ')
  {
    var b := SpaceAtOrBefore(s, i) + 1;
    var e := SpaceAtOrAfter(s, i);
    assert Block(s, i) == s[b..e];
  }

  lemma BlockHasNoSpace(s: string, i: nat)
    requires i < |s| && s[i] != ' '
    ensures ' ' !in Block(s, i) && s[i] in Block(s, i)
  {
    var b := SpaceAtOrBefore(s, i) + 1;
    var e := SpaceAtOrAfter(s, i);
    var r := Block(s, i);
    assert r == s[b..e];
    assert forall m | 0 <= m < |r| :: r[m] == s[b + m];
    assert r[i - b] == s[i];
  }

  /**
   * getBlockBehindChar: scans left from i for a space, then right from i; the
   * block lies strictly between.  A space at i would make substring(i + 1, i)
   * throw, so callers pass a non-space position.
   */
  method GetBlockBehindChar(s: string, i: nat) returns (part: string)
    requires i < |s| && s[i] != ' '
    ensures part == Block(s, i)
  {
    var j := i as int;
    while j >= 0 && s[j] != ' '
      invariant -1 <= j <= i
      invariant SpaceAtOrBefore(s, j) == SpaceAtOrBefore(s, i)
      decreases j
    {
      j := j - 1;
    }
    var beforeSpace := j;
    var k := i;
    while k < |s| && s[k] != ' '
      invariant i <= k <= |s|
      invariant SpaceAtOrAfter(s, k) == SpaceAtOrAfter(s, i)
      decreases |s| - k
    {
      k := k + 1;
    }
    var afterSpace := k;
    part := s[beforeSpace + 1..afterSpace];
  }
}
