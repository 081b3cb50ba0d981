/**
 * ExclusionManagerService: the list of name fragments that the renamer must
 * leave alone, loaded from every exclusions.xml resource, and the lookup
 * that decides whether a fragment is one of them.
 */
module Exclusions {
  import opened Wrappers
  import opened JavaStrings

  /** One exclusions.xml resource as XStream reads it: None when it holds no list. */
  type Resource = Option<seq<string>>

  /** The entries of every resource, in resource order. */
  function Merged(resources: seq<Resource>): (r: seq<string>)
  {
    if resources == [] then []
    else
      var last := resources[|resources| - 1];
      Merged(resources[..|resources| - 1]) + (if last.Some? then last.value else [])
  }

  lemma {:induction false} MergedAppend(a: seq<Resource>, b: seq<Resource>)
    ensures Merged(a + b) == Merged(a) + Merged(b)
    decreases |b|
  {
    if b == [] {
      assert a + b == a;
    } else {
      assert (a + b)[..|a + b| - 1] == a + b[..|b| - 1];
      MergedAppend(a, b[..|b| - 1]);
    }
  }

  /** An entry is loaded exactly when some resource lists it. */
  lemma {:induction false} MergedMembership(resources: seq<Resource>, e: string)
    ensures e in Merged(resources) <==>
            exists k | 0 <= k < |resources| :: resources[k].Some? && e in resources[k].value
  {
    if resources != [] {
      var init := resources[..|resources| - 1];
      MergedMembership(init, e);
      assert forall k | 0 <= k < |init| :: init[k] == resources[k];
    }
  }

  /** One entry matches a fragment: equal ignoring case, or (in part mode) contained once lowercased. */
  predicate Matches(str: string, entry: string, considerPartString: bool) {
    EqualsIgnoreCase(str, entry) || (considerPartString && Contains(str, Lower(entry)))
  }

  predicate HasExclusion(exclusions: seq<string>, str: string, considerPartString: bool) {
    exists j | 0 <= j < |exclusions| :: Matches(str, exclusions[j], considerPartString)
  }

  class ExclusionManagerService {
    var exclusions: seq<string>

    /** Before afterPropertiesSet the list is empty. */
    constructor ()
      ensures exclusions == []
    {
      exclusions := [];
    }

    /** afterPropertiesSet: the list becomes every resource's entries, concatenated. */
    method AfterPropertiesSet(resources: seq<Resource>)
      modifies this
      ensures exclusions == Merged(resources)
    {
      exclusions := [];
      var k := 0;
      while k < |resources|
        invariant 0 <= k <= |resources|
        invariant exclusions == Merged(resources[..k])
      {
        assert resources[..k + 1][..k] == resources[..k];
        if resources[k].Some? {
          var entries := resources[k].value;
          var n := 0;
          while n < |entries|
            invariant 0 <= n <= |entries|
            invariant exclusions == Merged(resources[..k]) + entries[..n]
          {
            exclusions := exclusions + [entries[n]];
            assert entries[..n + 1] == entries[..n] + [entries[n]];
            n := n + 1;
          }
          assert entries[..n] == entries;
        }
        k := k + 1;
      }
      assert resources[..k] == resources;
    }

    function GetExclusions(): seq<string>
      reads this
    {
      exclusions
    }

    /** hasExclusionFor: scans the list and answers at the first matching entry. */
    method HasExclusionFor(str: string, considerPartString: bool) returns (found: bool)
      ensures found == HasExclusion(exclusions, str, considerPartString)
    {
      var j := 0;
      while j < |exclusions|
        invariant 0 <= j <= |exclusions|
        invariant forall m | 0 <= m < j :: !Matches(str, exclusions[m], considerPartString)
      {
        if EqualsIgnoreCase(str, exclusions[j])
           || (considerPartString && Contains(str, Lower(exclusions[j]))) {
          return true;
        }
        j := j + 1;
      }
      return false;
    }
  }

  /** A fragment excluded in equality mode is excluded in part mode too. */
  lemma EqualityModeImpliesPartMode(exclusions: seq<string>, str: string)
    requires HasExclusion(exclusions, str, false)
    ensures HasExclusion(exclusions, str, true)
  {
    var j :| 0 <= j < |exclusions| && Matches(str, exclusions[j], false);
    assert Matches(str, exclusions[j], true);
  }

  lemma NothingExcludedByEmptyList(str: string, considerPartString: bool)
    ensures !HasExclusion([], str, considerPartString)
  {
  }

  /** Equality mode ignores the case of the fragment. */
  lemma EqualityModeIgnoresCase(exclusions: seq<string>, str: string)
    ensures HasExclusion(exclusions, str, false) == HasExclusion(exclusions, Lower(str), false)
  {
    LowerIdempotent(str);
    if HasExclusion(exclusions, str, false) {
      var j :| 0 <= j < |exclusions| && Matches(str, exclusions[j], false);
      assert Matches(Lower(str), exclusions[j], false);
    }
    if HasExclusion(exclusions, Lower(str), false) {
      var j :| 0 <= j < |exclusions| && Matches(Lower(str), exclusions[j], false);
      assert Matches(str, exclusions[j], false);
    }
  }

  /** A list merged from several resources excludes what any part excludes. */
  lemma HasExclusionOfConcat(a: seq<string>, b: seq<string>, str: string, considerPartString: bool)
    ensures HasExclusion(a + b, str, considerPartString)
            <==> HasExclusion(a, str, considerPartString) || HasExclusion(b, str, considerPartString)
  {
    var p := considerPartString;
    if HasExclusion(a + b, str, p) {
      var j :| 0 <= j < |a + b| && Matches(str, (a + b)[j], p);
      if j < |a| {
        assert Matches(str, a[j], p);
      } else {
        assert Matches(str, b[j - |a|], p);
      }
    }
    if HasExclusion(a, str, p) {
      var j :| 0 <= j < |a| && Matches(str, a[j], p);
      assert (a + b)[j] == a[j];
    }
    if HasExclusion(b, str, p) {
      var j :| 0 <= j < |b| && Matches(str, b[j], p);
      assert (a + b)[|a| + j] == b[j];
    }
  }

  /**
   * Part mode looks for the lowercased entry in the fragment as it is: "xab"
   * contains the entry "AB" but "xAB" does not.
   */
  lemma PartModeIsCaseSensitiveOnFragment()
    ensures HasExclusion(["AB"], "xab", true)
    ensures !HasExclusion(["AB"], "xAB", true)
  {
    var ex: seq<string> := ["AB"];
    assert Lower("AB") == "ab";
    assert "xab"[1..3] == "ab";
    assert OccursAt("xab", "ab", 1);
    assert Matches("xab", ex[0], true);
    assert Lower("xAB") == "xab";
    assert !Contains("xAB", "ab") by {
      forall i | 0 <= i <= 1 ensures !OccursAt("xAB", "ab", i) {
        assert "xAB"[i..i + 2][1] == "xAB"[i + 1] != 'b';
      }
    }
    assert !Matches("xAB", ex[0], true);
  }
}
