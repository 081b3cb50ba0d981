/**
 * AudioPostProcessor: the post-processor of the AUDIO type.  It splits a
 * name into artist and title at the first dash that is not part of an
 * excluded word, rebuilds the name around " - ", and after a rename either
 * renames the file again from its tag or writes a tag from its name.
 */
module AudioPostProcessorModel {
  import opened Wrappers
  import opened JavaErrors
  import opened JavaStrings
  import opened FileSystemModel
  import opened Extensoes
  import opened Utilitario
  import opened Exclusions
  import opened RenamingOperations
  import opened RenomeadorRules
  import opened RenamingResultModel

  // splitName

  /** A '-' at i splits the name when its block is no exclusion (equality mode), or is "-" itself. */
  predicate Qualifies(exclusions: seq<string>, s: string, i: nat)
    requires i < |s|
  {
    s[i] == '-' && (!HasExclusion(exclusions, Block(s, i), false) || Block(s, i) == "-")
  }

  /** Index of the first qualifying dash at or after from, or |s|. */
  function FirstDash(exclusions: seq<string>, s: string, from: nat): (k: nat)
    requires from <= |s|
    ensures from <= k <= |s|
    ensures k < |s| ==> Qualifies(exclusions, s, k)
    ensures forall i | from <= i < k :: !Qualifies(exclusions, s, i)
    decreases |s| - from
  {
    if from == |s| then |s|
    else if Qualifies(exclusions, s, from) then from
    else FirstDash(exclusions, s, from + 1)
  }

  /** FirstDash is fixed by its properties. */
  lemma {:induction false} FirstDashUnique(exclusions: seq<string>, s: string, from: nat, k: nat)
    requires from <= k <= |s|
    requires k < |s| ==> Qualifies(exclusions, s, k)
    requires forall i | from <= i < k :: !Qualifies(exclusions, s, i)
    ensures FirstDash(exclusions, s, from) == k
    decreases k - from
  {
    if from < k {
      FirstDashUnique(exclusions, s, from + 1, k);
    }
  }

  /** What splitName returns: [s] without a qualifying dash, else the text around the first one. */
  function SplitParts(exclusions: seq<string>, s: string): (r: seq<string>)
    ensures |r| == 1 || |r| == 2
  {
    var k := FirstDash(exclusions, s, 0);
    if k == |s| then [s] else [s[..k], s[k + 1..]]
  }

  /**
   * splitName gives one part, the input itself, exactly when no dash
   * qualifies; otherwise the parts joined by "-" give the input back, and
   * the dash between them is the first qualifying one.
   */
  lemma SplitPartsShape(exclusions: seq<string>, s: string)
    ensures var r := SplitParts(exclusions, s);
      && (|r| == 1 <==> forall i | 0 <= i < |s| :: !Qualifies(exclusions, s, i))
      && (|r| == 1 ==> r == [s])
      && (|r| == 2 ==> r[0] + "-" + r[1] == s && |r[0]| < |s| && Qualifies(exclusions, s, |r[0]|)
                       && forall i | 0 <= i < |r[0]| :: !Qualifies(exclusions, s, i))
  {
    var k := FirstDash(exclusions, s, 0);
    if k < |s| {
      assert s[..k] + "-" + s[k + 1..] == s[..k] + s[k..k + 1] + s[k + 1..];
      assert s[..k] + s[k..k + 1] + s[k + 1..] == s;
    }
  }

  /** A dash standing alone between spaces (or the ends) always splits. */
  lemma LoneDashQualifies(exclusions: seq<string>, s: string, i: nat)
    requires i < |s| && s[i] == '-'
    requires i == 0 || s[i - 1] == ' '
    requires i + 1 == |s| || s[i + 1] == ' '
    ensures Qualifies(exclusions, s, i)
  {
    var b := SpaceAtOrBefore(s, i);
    var e := SpaceAtOrAfter(s, i + 1);
    assert b + 1 == i;
    assert e == i + 1;
    assert Block(s, i) == s[i..i + 1];
  }

  /** "Jay-Z - Song": the dash inside an excluded name is passed over. */
  lemma ExcludedDashPassedOver()
    ensures SplitParts(["Jay-Z"], "jay-z - song") == ["jay-z ", " song"]
  {
    var s := "jay-z - song";
    var ex := ["Jay-Z"];
    NoDashQualifiesBefore(ex, s);
    LoneDashQualifies(ex, s, 6);
    FirstDashUnique(ex, s, 0, 6);
    assert s[..6] == "jay-z " && s[7..] == " song";
  }

  /** In "jay-z - song" no position before the spaced dash qualifies. */
  lemma NoDashQualifiesBefore(ex: seq<string>, s: string)
    requires ex == ["Jay-Z"] && s == "jay-z - song"
    ensures forall i | 0 <= i < 6 :: !Qualifies(ex, s, i)
  {
    forall i | 0 <= i < 6 ensures !Qualifies(ex, s, i) {
      if i == 3 {
        JayZDashExcluded(s);
      } else {
        assert s[i] != '-';
      }
    }
  }

  /** The dash of "jay-z" sits in a block that matches the exclusion. */
  lemma JayZDashExcluded(s: string)
    requires s == "jay-z - song"
    ensures !Qualifies(["Jay-Z"], s, 3)
  {
    assert s[0] != ' ' && s[1] != ' ' && s[2] != ' ' && s[3] != ' ' && s[4] != ' ' && s[5] == ' ';
    var b := SpaceAtOrBefore(s, 3);
    assert b == -1;
    var e := SpaceAtOrAfter(s, 3);
    assert e == 5;
    assert Block(s, 3) == s[0..5] == "jay-z";
    assert Lower("jay-z") == Lower("Jay-Z");
    var ex := ["Jay-Z"];
    assert Matches(Block(s, 3), ex[0], false);
  }

  // processFileName

  /**
   * processFileName: a name that does not split is kept; otherwise each
   * part loses its dashes (those outside excluded words) and is trimmed, and
   * the parts are joined by " - ".  The parenthesis check on the second part
   * concatenates into a discarded string, so it changes nothing.
   */
  function ProcessedFileName(exclusions: seq<string>, s: string): string {
    var parts := SplitParts(exclusions, s);
    if |parts| == 2 then
      Trim(ReplaceFrom(exclusions, parts[0], 0, '-', "")) + " - "
        + Trim(ReplaceFrom(exclusions, parts[1], 0, '-', ""))
    else s
  }

  /**
   * A name with no qualifying dash comes back unchanged.  Otherwise the
   * result is artist + " - " + title, where the artist and title are
   * trimmed and come from the two parts by removing dashes only.
   */
  lemma ProcessedFileNameShape(exclusions: seq<string>, s: string)
    ensures (forall i | 0 <= i < |s| :: !Qualifies(exclusions, s, i)) ==> ProcessedFileName(exclusions, s) == s
    ensures (exists i | 0 <= i < |s| :: Qualifies(exclusions, s, i)) ==>
      exists k, a, b ::
        && 0 <= k < |s| && Qualifies(exclusions, s, k)
        && OnlyTargetReplaced(s[..k], a, '-', "") && OnlyTargetReplaced(s[k + 1..], b, '-', "")
        && ProcessedFileName(exclusions, s) == Trim(a) + " - " + Trim(b)
  {
    SplitPartsShape(exclusions, s);
    var parts := SplitParts(exclusions, s);
    if |parts| == 2 {
      var k := FirstDash(exclusions, s, 0);
      var a := ReplaceFrom(exclusions, parts[0], 0, '-', "");
      var b := ReplaceFrom(exclusions, parts[1], 0, '-', "");
      ReplaceFromOnlyReplacesTarget(exclusions, parts[0], 0, '-', "");
      ReplaceFromOnlyReplacesTarget(exclusions, parts[1], 0, '-', "");
      assert parts[0][0..] == parts[0] && a[0..] == a;
      assert parts[1][0..] == parts[1] && b[0..] == b;
      assert parts[0] == s[..k] && parts[1] == s[k + 1..];
      assert OnlyTargetReplaced(s[..k], a, '-', "") && OnlyTargetReplaced(s[k + 1..], b, '-', "");
      assert ProcessedFileName(exclusions, s) == Trim(a) + " - " + Trim(b);
      assert 0 <= k < |s| && Qualifies(exclusions, s, k);
    }
  }

  // processFile

  /** The one exception processFile lets out. */
  const AudioError := FileManager("Erro para alterar as propriedades do arquivo de audio.")

  /**
   * AudioFileIO.read then getTag: None when the file cannot be read as
   * audio; a file without a tag gets createDefaultTag's empty one.
   */
  function ReadTag(nodes: map<Path, Node>, p: Path): (r: Option<Tag>)
    ensures r.Some? <==> p in nodes && p != [] && !nodes[p].isDir && nodes[p].readable && !nodes[p].content.NotAudio?
    ensures r.Some? ==> r.value == (if nodes[p].content.Untagged? then EmptyTag else nodes[p].content.tag)
  {
    if p in nodes && p != [] && !nodes[p].isDir && nodes[p].readable && !nodes[p].content.NotAudio? then
      Some(if nodes[p].content.Untagged? then EmptyTag else nodes[p].content.tag)
    else None
  }

  /** A tag names the song when both artist and title are present. */
  predicate NamesSong(t: Tag) {
    t.artist != "" && t.title != ""
  }

  /** The name built from a tag: artist - title.ext, title-cased. */
  function TagName(ctx: RenameContext, t: Tag, ext: Extensao): string {
    ctx.capitalizeFully(Replaced(ctx.catalog, t.artist) + " - " + Replaced(ctx.catalog, t.title) + "." + ctx.text(ext))
  }

  /** The tag written back when the tag does not name the song: fields from the file name. */
  function TagFromName(t: Tag, parts: seq<string>): Tag
    requires |parts| == 1 || |parts| == 2
  {
    t.(artist := Trim(parts[0]), albumArtist := Trim(parts[0]),
       title := if |parts| > 1 then Trim(parts[1]) else t.title,
       album := "", genre := "", year := "", track := "0")
  }

  datatype AudioOutcome = AudioOutcome(nodes: map<Path, Node>, renamed: map<Path, Path>, outcome: Outcome<Exception>)

  /** setTag and commit: a failed write is the audio error. */
  function CommitStep(nodes: map<Path, Node>, renamed: map<Path, Path>, p: Path, t: Tag): AudioOutcome {
    if CanCommit(nodes, p) then AudioOutcome(Committed(nodes, p, t), renamed, Pass)
    else AudioOutcome(nodes, renamed, Fail(AudioError))
  }

  /** The target of the tag branch: the new name resolved under the file's own path. */
  function TagTarget(ctx: RenameContext, t: Tag, ext: Extensao, p: Path, snapshot: seq<string>): Path {
    Resolve(p, WithCollisionPrefix(TagName(ctx, t, ext), snapshot, ctx.millis))
  }

  /** What processFile does to the filesystem and the result map, and whether it throws. */
  function AudioEffect(nodes: map<Path, Node>, renamed: map<Path, Path>, exclusions: seq<string>,
                       ctx: RenameContext, p: Path, ext: Extensao, snapshot: seq<string>): AudioOutcome
  {
    match ReadTag(nodes, p)
    case None => AudioOutcome(nodes, renamed, Fail(AudioError))
    case Some(t) =>
      if NamesSong(t) then
        var dst := TagTarget(ctx, t, ext, p, snapshot);
        var moved := if CanRename(nodes, p, dst) then Renamed(nodes, p, dst) else nodes;
        CommitStep(moved, (renamed - {p})[dst := p], p, t)
      else
        match SplitExtension(NameOf(p))
        case Err(_) => AudioOutcome(nodes, renamed, Fail(AudioError))
        case Ok(np) => CommitStep(nodes, renamed, p, TagFromName(t, SplitParts(exclusions, np.base)))
  }

  /** Whatever goes wrong in processFile surfaces as the one audio error. */
  lemma AudioFailureIsFileManagerError(nodes: map<Path, Node>, renamed: map<Path, Path>, exclusions: seq<string>,
                                       ctx: RenameContext, p: Path, ext: Extensao, snapshot: seq<string>)
    requires ValidTree(nodes)
    ensures var a := AudioEffect(nodes, renamed, exclusions, ctx, p, ext, snapshot);
      && (a.outcome.Fail? ==> a.outcome.error == AudioError)
      && (a.outcome.Pass? <==> ReadTag(nodes, p).Some? && CanCommit(nodes, p)
                               && (NamesSong(ReadTag(nodes, p).value) || '.' in NameOf(p)))
  {
    var a := AudioEffect(nodes, renamed, exclusions, ctx, p, ext, snapshot);
    if ReadTag(nodes, p).Some? && NamesSong(ReadTag(nodes, p).value) {
      var t := ReadTag(nodes, p).value;
      var dst := TagTarget(ctx, t, ext, p, snapshot);
      TagTargetNeverMoves(nodes, p, dst);
    }
  }

  /**
   * The tag branch's target lies below the file itself, so rename(2) cannot
   * move the file there: the nodes stay as they were.
   */
  lemma TagTargetNeverMoves(nodes: map<Path, Node>, p: Path, dst: Path)
    requires ValidTree(nodes) && p in nodes && !nodes[p].isDir && Under(p, dst)
    ensures (if CanRename(nodes, p, dst) then Renamed(nodes, p, dst) else nodes) == nodes
  {
    if CanRename(nodes, p, dst) && dst != p {
      assert Under(p, Parent(dst)) by {
        assert Parent(dst)[..|p|] == dst[..|p|];
      }
      if Parent(dst) != p {
        NothingBelowFile(nodes, p, Parent(dst));
      }
      assert false;
    }
    if CanRename(nodes, p, dst) {
      assert Renamed(nodes, p, dst) == nodes;
    }
  }

  /**
   * The tag branch: the file stays where it is (only its tag is written
   * back), and the map loses the entry keyed by the file's path in favour of
   * target -> path, so the path the file had before the first rename is no
   * longer recorded.
   */
  lemma TagBranchEffect(nodes: map<Path, Node>, renamed: map<Path, Path>, exclusions: seq<string>,
                        ctx: RenameContext, p: Path, ext: Extensao, snapshot: seq<string>)
    requires ValidTree(nodes)
    requires ReadTag(nodes, p).Some? && NamesSong(ReadTag(nodes, p).value)
    ensures var t := ReadTag(nodes, p).value;
      var dst := TagTarget(ctx, t, ext, p, snapshot);
      var a := AudioEffect(nodes, renamed, exclusions, ctx, p, ext, snapshot);
      && a.renamed == (renamed - {p})[dst := p]
      && a.renamed[dst] == p
      && (dst != p ==> p !in a.renamed)
      && a.nodes == (if CanCommit(nodes, p) then Committed(nodes, p, t) else nodes)
      && (CanCommit(nodes, p) ==> a.nodes[p].content == nodes[p].content.(tag := t))
  {
    var t := ReadTag(nodes, p).value;
    TagBranchIsCommit(nodes, renamed, exclusions, ctx, p, ext, snapshot);
    if CanCommit(nodes, p) {
      CommittedFrame(nodes, p, t);
    }
  }

  /** The tag branch leaves the nodes to the commit alone. */
  lemma TagBranchIsCommit(nodes: map<Path, Node>, renamed: map<Path, Path>, exclusions: seq<string>,
                          ctx: RenameContext, p: Path, ext: Extensao, snapshot: seq<string>)
    requires ValidTree(nodes)
    requires ReadTag(nodes, p).Some? && NamesSong(ReadTag(nodes, p).value)
    ensures var t := ReadTag(nodes, p).value;
      AudioEffect(nodes, renamed, exclusions, ctx, p, ext, snapshot)
      == CommitStep(nodes, (renamed - {p})[TagTarget(ctx, t, ext, p, snapshot) := p], p, t)
  {
    var t := ReadTag(nodes, p).value;
    TagTargetNeverMoves(nodes, p, TagTarget(ctx, t, ext, p, snapshot));
  }

  /** The branch without a usable tag commits the tag built from the name. */
  lemma NameBranchIsCommit(nodes: map<Path, Node>, renamed: map<Path, Path>, exclusions: seq<string>,
                           ctx: RenameContext, p: Path, ext: Extensao, snapshot: seq<string>)
    requires ReadTag(nodes, p).Some? && !NamesSong(ReadTag(nodes, p).value)
    requires SplitExtension(NameOf(p)).Ok?
    ensures var t := ReadTag(nodes, p).value;
      AudioEffect(nodes, renamed, exclusions, ctx, p, ext, snapshot)
      == CommitStep(nodes, renamed, p, TagFromName(t, SplitParts(exclusions, SplitExtension(NameOf(p)).value.base)))
  {
  }

  /** Writing a tag changes that file's content and nothing else. */
  lemma CommittedFrame(nodes: map<Path, Node>, p: Path, t: Tag)
    requires CanCommit(nodes, p)
    ensures var m := Committed(nodes, p, t);
      && m.Keys == nodes.Keys
      && (forall q | q in nodes && q != p :: m[q] == nodes[q])
      && m[p] == nodes[p].(content := Tagged(t))
  {
  }

  /** A commit step keeps the tree valid and changes no node but p. */
  lemma CommitStepFrame(nodes: map<Path, Node>, renamed: map<Path, Path>, p: Path, t: Tag)
    requires ValidTree(nodes)
    ensures var a := CommitStep(nodes, renamed, p, t);
      && ValidTree(a.nodes) && a.renamed == renamed
      && a.nodes.Keys == nodes.Keys
      && (forall q | q in nodes && q != p :: a.nodes[q] == nodes[q])
  {
    if CanCommit(nodes, p) {
      CommitPreservesTree(nodes, p, t);
      CommittedFrame(nodes, p, t);
    }
  }

  /** Replacing p's entry by dst -> p, with dst below p, touches no path outside p. */
  lemma ReplacedEntryFrame(renamed: map<Path, Path>, p: Path, dst: Path)
    requires Under(p, dst)
    ensures var m := (renamed - {p})[dst := p];
      forall q | !Under(p, q) :: (q in m <==> q in renamed) && (q in renamed ==> m[q] == renamed[q])
  {
    assert Under(p, p) by { assert p[..|p|] == p; }
  }

  /**
   * The branch without a usable tag: artist and album artist become the
   * first part of the file's base name, the title the second part when
   * there is one, album, genre and year are cleared and track is "0"; the
   * map is left alone and only that file's tag changes.
   */
  lemma NameBranchEffect(nodes: map<Path, Node>, renamed: map<Path, Path>, exclusions: seq<string>,
                         ctx: RenameContext, p: Path, ext: Extensao, snapshot: seq<string>)
    requires ReadTag(nodes, p).Some? && !NamesSong(ReadTag(nodes, p).value)
    requires SplitExtension(NameOf(p)).Ok? && CanCommit(nodes, p)
    ensures var t := ReadTag(nodes, p).value;
      var parts := SplitParts(exclusions, SplitExtension(NameOf(p)).value.base);
      var a := AudioEffect(nodes, renamed, exclusions, ctx, p, ext, snapshot);
      && a.outcome == Pass && a.renamed == renamed
      && a.nodes.Keys == nodes.Keys
      && (forall q | q in nodes && q != p :: a.nodes[q] == nodes[q])
      && a.nodes[p].content.Tagged?
      && var w := a.nodes[p].content.tag;
      && w.artist == Trim(parts[0]) == w.albumArtist
      && w.title == (if |parts| == 2 then Trim(parts[1]) else t.title)
      && w.album == "" && w.genre == "" && w.year == "" && w.track == "0"
  {
    var t := ReadTag(nodes, p).value;
    var tag := TagFromName(t, SplitParts(exclusions, SplitExtension(NameOf(p)).value.base));
    NameBranchIsCommit(nodes, renamed, exclusions, ctx, p, ext, snapshot);
    CommittedFrame(nodes, p, tag);
  }

  /** Without a readable audio file nothing changes and the audio error is thrown. */
  lemma UnreadableChangesNothing(nodes: map<Path, Node>, renamed: map<Path, Path>, exclusions: seq<string>,
                                 ctx: RenameContext, p: Path, ext: Extensao, snapshot: seq<string>)
    requires p !in nodes || nodes[p].isDir || !nodes[p].readable || nodes[p].content.NotAudio?
    ensures AudioEffect(nodes, renamed, exclusions, ctx, p, ext, snapshot) == AudioOutcome(nodes, renamed, Fail(AudioError))
  {
  }

  /**
   * processFile changes nothing outside the file's own path: nodes and map
   * entries away from p are kept, directories are untouched, and the tree
   * stays valid.
   */
  lemma AudioEffectFrame(nodes: map<Path, Node>, renamed: map<Path, Path>, exclusions: seq<string>,
                         ctx: RenameContext, p: Path, ext: Extensao, snapshot: seq<string>)
    requires ValidTree(nodes)
    ensures var a := AudioEffect(nodes, renamed, exclusions, ctx, p, ext, snapshot);
      && ValidTree(a.nodes)
      && a.nodes.Keys == nodes.Keys
      && (forall q | q in nodes && q != p :: a.nodes[q] == nodes[q])
      && (forall q | !Under(p, q) :: (q in a.renamed <==> q in renamed) && (q in renamed ==> a.renamed[q] == renamed[q]))
  {
    var r := ReadTag(nodes, p);
    if r.Some? {
      var t := r.value;
      if NamesSong(t) {
        var dst := TagTarget(ctx, t, ext, p, snapshot);
        TagBranchIsCommit(nodes, renamed, exclusions, ctx, p, ext, snapshot);
        CommitStepFrame(nodes, (renamed - {p})[dst := p], p, t);
        ReplacedEntryFrame(renamed, p, dst);
      } else if SplitExtension(NameOf(p)).Ok? {
        NameBranchIsCommit(nodes, renamed, exclusions, ctx, p, ext, snapshot);
        CommitStepFrame(nodes, renamed, p, TagFromName(t, SplitParts(exclusions, SplitExtension(NameOf(p)).value.base)));
      }
    }
  }

  class AudioPostProcessor {
    const renamingOperations: RenamingOperations
    const exclusions: ExclusionManagerService

    /** Both collaborators share the one ExclusionManagerService, as the container wires them. */
    predicate Wired() {
      renamingOperations.exclusions == exclusions
    }

    constructor (renamingOperations: RenamingOperations, exclusions: ExclusionManagerService)
      requires renamingOperations.exclusions == exclusions
      ensures this.renamingOperations == renamingOperations && this.exclusions == exclusions
      ensures Wired()
    {
      this.renamingOperations := renamingOperations;
      this.exclusions := exclusions;
    }

    /** splitName: scans for the first dash whose block qualifies. */
    method SplitName(newName: string) returns (name: seq<string>)
      ensures name == SplitParts(exclusions.exclusions, newName)
    {
      var splitIndex := 0;
      var splitSuccessful := false;
      for i := 0 to |newName|
        invariant !splitSuccessful
        invariant forall m | 0 <= m < i :: !Qualifies(exclusions.exclusions, newName, m)
      {
        splitIndex := i;
        splitSuccessful := SplitsAt(newName, i);
        if splitSuccessful {
          break;
        }
      }
      if !splitSuccessful {
        FirstDashUnique(exclusions.exclusions, newName, 0, |newName|);
        return [newName];
      }
      FirstDashUnique(exclusions.exclusions, newName, 0, splitIndex);
      name := [newName[..splitIndex], newName[splitIndex + 1..]];
    }

    /** The loop body of splitName: a dash splits unless its block is an exclusion other than "-". */
    method SplitsAt(newName: string, i: nat) returns (b: bool)
      requires i < |newName|
      ensures b == Qualifies(exclusions.exclusions, newName, i)
    {
      b := false;
      if newName[i] == '-' {
        var part := GetBlockBehindChar(newName, i);
        var excluded := exclusions.HasExclusionFor(part, false);
        b := !excluded || part == "-";
      }
    }

    /** processFileName. */
    method ProcessFileName(fileName: string) returns (r: string)
      requires Wired()
      ensures r == ProcessedFileName(exclusions.exclusions, fileName)
    {
      var name := SplitName(fileName);
      r := fileName;
      if |name| == 2 {
        var first := renamingOperations.DoReplaceAll(name[0], '-', "");
        var second := renamingOperations.DoReplaceAll(name[1], '-', "");
        r := Trim(first) + " - " + Trim(second);
      }
    }

    /**
     * processFile for the file at p: with a tag naming the song, renames the
     * file after the tag and records target -> p in place of p's entry;
     * otherwise fills the tag from the file name; then writes the tag.
     */
    method ProcessFile(fs: FileSystem, result: RenamingResult, p: Path, ext: Extensao,
                       originalFileList: seq<string>, ctx: RenameContext)
      returns (outcome: Outcome<Exception>)
      requires fs.Valid()
      modifies fs, result
      ensures fs.Valid()
      ensures AudioOutcome(fs.nodes, result.renamedFiles, outcome)
              == AudioEffect(old(fs.nodes), old(result.renamedFiles), exclusions.exclusions, ctx, p, ext, originalFileList)
    {
      ghost var nodes0, renamed0 := fs.nodes, result.renamedFiles;
      var read := ReadTag(fs.nodes, p);
      if read.None? {
        return Fail(AudioError);
      }
      var tag := read.value;
      if tag.artist != "" && tag.title != "" {
        TagBranchIsCommit(nodes0, renamed0, exclusions.exclusions, ctx, p, ext, originalFileList);
        TagTargetNeverMoves(nodes0, p, TagTarget(ctx, tag, ext, p, originalFileList));
        RenameFromTag(fs, result, p, tag, ext, originalFileList, ctx);
      } else {
        var nameSeparated := SplitExtension(NameOf(p));
        if nameSeparated.Err? {
          return Fail(AudioError);
        }
        NameBranchIsCommit(nodes0, renamed0, exclusions.exclusions, ctx, p, ext, originalFileList);
        tag := TagFromFileName(tag, nameSeparated.value.base);
      }
      var ok := fs.CommitTag(p, tag);
      outcome := if ok then Pass else Fail(AudioError);
    }

    /** The tag branch up to the commit: rename after the tag, then replace p's map entry. */
    method RenameFromTag(fs: FileSystem, result: RenamingResult, p: Path, tag: Tag, ext: Extensao,
                         originalFileList: seq<string>, ctx: RenameContext)
      requires fs.Valid()
      modifies fs, result
      ensures fs.Valid()
      ensures var dst := TagTarget(ctx, tag, ext, p, originalFileList);
        && fs.nodes == (if CanRename(old(fs.nodes), p, dst) then Renamed(old(fs.nodes), p, dst) else old(fs.nodes))
        && result.renamedFiles == (old(result.renamedFiles) - {p})[dst := p]
    {
      var artist := Replaces(ctx.catalog, tag.artist);
      var title := Replaces(ctx.catalog, tag.title);
      var newName := artist + " - " + title + "." + ctx.text(ext);
      newName := ctx.capitalizeFully(newName);
      var newFile := Resolve(p, newName);
      if newName in originalFileList {
        newName := "(" + NatToString(ctx.millis) + ") " + newName;
        newFile := Resolve(p, newName);
      }
      assert newFile == TagTarget(ctx, tag, ext, p, originalFileList);
      var moved := fs.RenameTo(p, newFile);
      result.renamedFiles := (result.renamedFiles - {p})[newFile := p];
    }

    /** The tag fields the branch without a usable tag sets from the base name. */
    method TagFromFileName(tag: Tag, base: string) returns (r: Tag)
      ensures r == TagFromName(tag, SplitParts(exclusions.exclusions, base))
    {
      var fileInfo := SplitName(base);
      r := tag.(artist := Trim(fileInfo[0]), albumArtist := Trim(fileInfo[0]));
      if |fileInfo| > 1 {
        r := r.(title := Trim(fileInfo[1]));
      }
      r := r.(album := "", genre := "", year := "", track := "0");
    }
  }
}
