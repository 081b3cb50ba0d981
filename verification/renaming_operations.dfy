/**
 * RenamingOperations: replacement of one character that spares the
 * occurrences lying inside an excluded word.
 */
module RenamingOperations {
  import opened JavaStrings
  import opened Utilitario
  import opened Exclusions

  /**
   * The string doReplaceAll produces from position i on.  An occurrence of
   * target is replaced unless its block, taken in the string as rewritten so
   * far, matches an exclusion in part mode; the index moves on by one either
   * way, so after a removal the char shifted into position i is not looked at.
   */
  function ReplaceFrom(exclusions: seq<string>, s: string, i: nat, target: char, sub: string): string
    requires |sub| <= 1 && target != ' '
    decreases |s| - i
  {
    if i >= |s| then s
    else if s[i] == target && !HasExclusion(exclusions, Block(s, i), true) then
      ReplaceFrom(exclusions, s[..i] + sub + s[i + 1..], i + 1, target, sub)
    else ReplaceFrom(exclusions, s, i + 1, target, sub)
  }

  /**
   * r comes from s by replacing some occurrences of target with sub: every
   * other char is kept, in order.
   */
  predicate OnlyTargetReplaced(s: string, r: string, target: char, sub: string)
    decreases |s|
  {
    if s == [] then r == []
    else if s[0] != target then r != [] && r[0] == s[0] && OnlyTargetReplaced(s[1..], r[1..], target, sub)
    else
      || (r != [] && r[0] == target && OnlyTargetReplaced(s[1..], r[1..], target, sub))
      || (|sub| <= |r| && r[..|sub|] == sub && OnlyTargetReplaced(s[1..], r[|sub|..], target, sub))
  }

  lemma {:induction false} ReplaceFromOnlyReplacesTarget(exclusions: seq<string>, t: string, i: nat, target: char, sub: string)
    requires |sub| <= 1 && target != ' ' && i <= |t|
    ensures var r := ReplaceFrom(exclusions, t, i, target, sub);
      && i <= |r| && r[..i] == t[..i]
      && OnlyTargetReplaced(t[i..], r[i..], target, sub)
    decreases |t| - i, 1
  {
    if i < |t| {
      if t[i] == target && !HasExclusion(exclusions, Block(t, i), true) {
        ReplacedCase(exclusions, t, i, target, sub);
      } else {
        KeptCase(exclusions, t, i, target, sub);
      }
    }
  }

  /** The step that replaces the occurrence at i. */
  lemma {:induction false} ReplacedCase(exclusions: seq<string>, t: string, i: nat, target: char, sub: string)
    requires |sub| <= 1 && target != ' ' && i < |t| && t[i] == target
    requires !HasExclusion(exclusions, Block(t, i), true)
    ensures var r := ReplaceFrom(exclusions, t, i, target, sub);
      i <= |r| && r[..i] == t[..i] && OnlyTargetReplaced(t[i..], r[i..], target, sub)
    decreases |t| - i, 0
  {
    var t' := t[..i] + sub + t[i + 1..];
    var r := ReplaceFrom(exclusions, t, i, target, sub);
    assert r == ReplaceFrom(exclusions, t', i + 1, target, sub);
    if i + 1 > |t'| {
      assert r == t';
      RemovedLast(t, r, i, target, sub);
    } else {
      ReplaceFromOnlyReplacesTarget(exclusions, t', i + 1, target, sub);
      if |sub| == 1 {
        SubstitutedStep(t, t', r, i, target, sub);
      } else {
        RemovedStep(t, t', r, i, target, sub);
      }
    }
  }

  /** The step that keeps the char at i. */
  lemma {:induction false} KeptCase(exclusions: seq<string>, t: string, i: nat, target: char, sub: string)
    requires |sub| <= 1 && target != ' ' && i < |t|
    requires !(t[i] == target && !HasExclusion(exclusions, Block(t, i), true))
    ensures var r := ReplaceFrom(exclusions, t, i, target, sub);
      i <= |r| && r[..i] == t[..i] && OnlyTargetReplaced(t[i..], r[i..], target, sub)
    decreases |t| - i, 0
  {
    var r := ReplaceFrom(exclusions, t, i, target, sub);
    assert r == ReplaceFrom(exclusions, t, i + 1, target, sub);
    ReplaceFromOnlyReplacesTarget(exclusions, t, i + 1, target, sub);
    KeptStep(t, r, i, target, sub);
  }

  lemma KeptStep(t: string, r: string, i: nat, target: char, sub: string)
    requires i < |t| && i + 1 <= |r| && r[..i + 1] == t[..i + 1]
    requires OnlyTargetReplaced(t[i + 1..], r[i + 1..], target, sub)
    ensures r[..i] == t[..i] && OnlyTargetReplaced(t[i..], r[i..], target, sub)
  {
    assert r[..i] == r[..i + 1][..i];
    assert t[..i] == t[..i + 1][..i];
    assert r[i] == r[..i + 1][i] == t[i];
    assert t[i..][1..] == t[i + 1..];
    assert r[i..][1..] == r[i + 1..];
  }

  lemma SubstitutedStep(t: string, t': string, r: string, i: nat, target: char, sub: string)
    requires i < |t| && t[i] == target && |sub| == 1 && t' == t[..i] + sub + t[i + 1..]
    requires i + 1 <= |r| && r[..i + 1] == t'[..i + 1]
    requires OnlyTargetReplaced(t'[i + 1..], r[i + 1..], target, sub)
    ensures r[..i] == t[..i] && OnlyTargetReplaced(t[i..], r[i..], target, sub)
  {
    assert t'[i + 1..] == t[i + 1..];
    assert r[..i] == r[..i + 1][..i] == t'[..i] == t[..i];
    assert r[i] == t'[i] == sub[0];
    assert r[i..][..1] == sub;
    assert r[i..][1..] == r[i + 1..];
    assert t[i..][1..] == t[i + 1..];
  }

  lemma RemovedStep(t: string, t': string, r: string, i: nat, target: char, sub: string)
    requires i + 1 < |t| && t[i] == target && sub == [] && t' == t[..i] + sub + t[i + 1..]
    requires i + 1 <= |r| && r[..i + 1] == t'[..i + 1]
    requires OnlyTargetReplaced(t'[i + 1..], r[i + 1..], target, sub)
    ensures r[..i] == t[..i] && OnlyTargetReplaced(t[i..], r[i..], target, sub)
  {
    assert t'[i + 1..] == t[i + 2..];
    assert r[..i] == r[..i + 1][..i] == t'[..i] == t[..i];
    assert r[i] == t'[i] == t[i + 1];
    assert OnlyTargetReplaced(t[i + 1..], r[i..], target, sub) by {
      assert t[i + 1..][1..] == t[i + 2..];
      assert r[i..][1..] == r[i + 1..];
    }
    assert t[i..][1..] == t[i + 1..];
    assert r[i..][..|sub|] == sub && r[i..][|sub|..] == r[i..];
  }

  lemma RemovedLast(t: string, r: string, i: nat, target: char, sub: string)
    requires i + 1 == |t| && t[i] == target && sub == [] && r == t[..i]
    ensures r[..i] == t[..i] && OnlyTargetReplaced(t[i..], r[i..], target, sub)
  {
    assert t[i..][1..] == [];
    assert r[i..] == [];
  }

  /** With a one-char substitute the length is kept. */
  lemma {:induction false} OneCharSubstituteKeepsLength(s: string, r: string, target: char, sub: string)
    requires |sub| == 1 && OnlyTargetReplaced(s, r, target, sub)
    ensures |r| == |s|
    decreases |s|
  {
    if s != [] {
      if s[0] != target || (r != [] && r[0] == target && OnlyTargetReplaced(s[1..], r[1..], target, sub)) {
        OneCharSubstituteKeepsLength(s[1..], r[1..], target, sub);
      } else {
        OneCharSubstituteKeepsLength(s[1..], r[|sub|..], target, sub);
      }
    }
  }

  /** A string without the target char comes out unchanged. */
  lemma {:induction false} NoTargetNoChange(s: string, r: string, target: char, sub: string)
    requires target !in s && OnlyTargetReplaced(s, r, target, sub)
    ensures r == s
    decreases |s|
  {
    if s != [] {
      assert s[0] != target;
      NoTargetNoChange(s[1..], r[1..], target, sub);
      assert r == [r[0]] + r[1..];
      assert s == [s[0]] + s[1..];
    }
  }

  /** The empty exclusion matches every block in part mode, so nothing is replaced. */
  lemma {:induction false} EmptyEntryKeepsEverything(exclusions: seq<string>, s: string, i: nat, target: char, sub: string)
    requires |sub| <= 1 && target != ' '
    requires "" in exclusions
    ensures ReplaceFrom(exclusions, s, i, target, sub) == s
    decreases |s| - i
  {
    if i < |s| {
      if s[i] == target {
        var j :| 0 <= j < |exclusions| && exclusions[j] == "";
        assert OccursAt(Block(s, i), Lower(exclusions[j]), 0);
        assert Matches(Block(s, i), exclusions[j], true);
      }
      EmptyEntryKeepsEverything(exclusions, s, i + 1, target, sub);
    }
  }

  /** After a removal the dash shifted into place is skipped: "a--b" becomes "a-b". */
  lemma RemovalSkipsShiftedChar()
    ensures ReplaceFrom([], "a--b", 0, '-', "") == "a-b"
  {
    assert "a--b"[..1] + "" + "a--b"[2..] == "a-b";
    calc {
      ReplaceFrom([], "a--b", 0, '-', "");
      ReplaceFrom([], "a--b", 1, '-', "");
      ReplaceFrom([], "a-b", 2, '-', "");
      ReplaceFrom([], "a-b", 3, '-', "");
    }
  }

  class RenamingOperations {
    const exclusions: ExclusionManagerService

    constructor (exclusions: ExclusionManagerService)
      ensures this.exclusions == exclusions
    {
      this.exclusions := exclusions;
    }

    /**
     * doReplaceAll for a one-char target; the substitute has at most one char
     * (with a longer one that contains the target the loop would not end).
     * A space target would make getBlockBehindChar throw.
     */
    method DoReplaceAll(s: string, target: char, sub: string) returns (r: string)
      requires |sub| <= 1 && target != ' '
      ensures r == ReplaceFrom(exclusions.exclusions, s, 0, target, sub)
      ensures OnlyTargetReplaced(s, r, target, sub)
    {
      r := s;
      var i := 0;
      while i < |r|
        invariant i <= |r| + 1
        invariant ReplaceFrom(exclusions.exclusions, r, i, target, sub)
                  == ReplaceFrom(exclusions.exclusions, s, 0, target, sub)
        decreases |r| + 1 - i
      {
        if r[i] == target {
          var part := GetBlockBehindChar(r, i);
          var excluded := exclusions.HasExclusionFor(part, true);
          if !excluded {
            r := r[..i] + sub + r[i + 1..];
          }
        }
        i := i + 1;
      }
      ReplaceFromOnlyReplacesTarget(exclusions.exclusions, s, 0, target, sub);
    }
  }
}
