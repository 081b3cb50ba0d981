/**
 * Renomeador: the renaming operation.  For every entry a directory's
 * listing returns it either descends (a directory) or builds a new name for
 * the file (lower-case, noise removed, leading non-letters stripped, the
 * post-processor's artist/title rule, title case), renames the file when the
 * name changed and records new path -> old path.
 */
module RenomeadorModel {
  import opened Wrappers
  import opened JavaErrors
  import opened JavaStrings
  import opened FileSystemModel
  import opened Extensoes
  import opened Utilitario
  import opened Exclusions
  import opened RenomeadorRules
  import opened RenamingResultModel
  import opened AudioPostProcessorModel
  import opened DiretorioModel
  import opened Filtro

  datatype NewName = NewName(name: string, ext: Extensao)

  /**
   * The name the loop body builds for a file name, with the extension
   * constant it dispatched on, or the exception raised on the way: no dot,
   * an extension that names no constant, a type without post-processor, or
   * processNumbers running out of letters.
   */
  function NewNameOf(exclusions: seq<string>, ctx: RenameContext, originalName: string): Result<NewName, Exception> {
    match SplitExtension(Lower(Trim(originalName)))
    case Err(e) => Err(e)
    case Ok(parts) =>
      match ConstantOf(parts.ext)
      case Err(e) => Err(e)
      case Ok(ext) =>
        if Type(ext) != AUDIO then Err(NoSuchBeanDefinition)
        else AudioName(exclusions, ctx, parts, ext)
  }

  /** The name pipeline once the AUDIO post-processor is found: the new name keeps the constant. */
  function AudioName(exclusions: seq<string>, ctx: RenameContext, parts: NameParts, ext: Extensao)
    : (r: Result<NewName, Exception>)
    ensures r.Ok? ==> r.value.ext == ext
  {
    match ProcessedNumbers(exclusions, Trim(Replaced(ctx.catalog, Trim(parts.base))))
    case Err(e) => Err(e)
    case Ok(n) =>
      var body := Trim(ProcessedFileName(exclusions, Trim(n)));
      Ok(NewName(ctx.capitalizeFully(ctx.unescapeXml(body + "." + parts.ext)), ext))
  }

  /**
   * Only names whose extension (after the last dot, ignoring case) is an
   * AUDIO constant get a new name; a name without a dot fails with the
   * index exception, an extension naming no constant with
   * IllegalArgumentException and a constant of another type with
   * NoSuchBeanDefinitionException.
   */
  lemma NewNameOfDispatch(exclusions: seq<string>, ctx: RenameContext, originalName: string)
    ensures var lowered := Lower(Trim(originalName));
      var r := NewNameOf(exclusions, ctx, originalName);
      && ('.' !in lowered ==> r == Err(StringIndexOutOfBounds))
      && ('.' in lowered ==>
            var ext := SplitExtension(lowered).value.ext;
            && ((forall e: Extensao :: Name(e) != Upper(ext)) ==> r.Err? && r.error.IllegalArgument?)
            && (forall e: Extensao | Name(e) == Upper(ext) && Type(e) != AUDIO :: r == Err(NoSuchBeanDefinition))
            && (r.Ok? ==> Name(r.value.ext) == Upper(ext) && Type(r.value.ext) == AUDIO))
  {
    var lowered := Lower(Trim(originalName));
    if '.' in lowered {
      var ext := SplitExtension(lowered).value.ext;
      if forall e: Extensao :: Name(e) != Upper(ext) {
        UnknownExtensionFails(exclusions, ctx, originalName);
      }
      forall e: Extensao | Name(e) == Upper(ext) && Type(e) != AUDIO
        ensures NewNameOf(exclusions, ctx, originalName) == Err(NoSuchBeanDefinition)
      {
        OtherTypeFails(exclusions, ctx, originalName, e);
      }
      RenamedIsAudio(exclusions, ctx, originalName);
    } else {
      NoDotFails(exclusions, ctx, originalName);
    }
  }

  lemma NoDotFails(exclusions: seq<string>, ctx: RenameContext, originalName: string)
    requires '.' !in Lower(Trim(originalName))
    ensures NewNameOf(exclusions, ctx, originalName) == Err(StringIndexOutOfBounds)
  {
  }

  lemma UnknownExtensionFails(exclusions: seq<string>, ctx: RenameContext, originalName: string)
    requires '.' in Lower(Trim(originalName))
    requires forall e: Extensao :: Name(e) != Upper(SplitExtension(Lower(Trim(originalName))).value.ext)
    ensures var r := NewNameOf(exclusions, ctx, originalName); r.Err? && r.error.IllegalArgument?
  {
    ConstantOfUnknown(SplitExtension(Lower(Trim(originalName))).value.ext);
  }

  lemma OtherTypeFails(exclusions: seq<string>, ctx: RenameContext, originalName: string, e: Extensao)
    requires '.' in Lower(Trim(originalName))
    requires Name(e) == Upper(SplitExtension(Lower(Trim(originalName))).value.ext) && Type(e) != AUDIO
    ensures NewNameOf(exclusions, ctx, originalName) == Err(NoSuchBeanDefinition)
  {
    ConstantOfName(SplitExtension(Lower(Trim(originalName))).value.ext, e);
  }

  lemma RenamedIsAudio(exclusions: seq<string>, ctx: RenameContext, originalName: string)
    requires '.' in Lower(Trim(originalName))
    ensures var r := NewNameOf(exclusions, ctx, originalName);
      r.Ok? ==> Name(r.value.ext) == Upper(SplitExtension(Lower(Trim(originalName))).value.ext)
                && Type(r.value.ext) == AUDIO
  {
    var parts := SplitExtension(Lower(Trim(originalName))).value;
    var c := ConstantOf(parts.ext);
    if c.Ok? && Type(c.value) == AUDIO {
      assert NewNameOf(exclusions, ctx, originalName) == AudioName(exclusions, ctx, parts, c.value);
    }
  }

  /** An extension that names a constant dispatches to that constant. */
  lemma ConstantOfName(ext: string, e: Extensao)
    requires Name(e) == Upper(ext)
    ensures ConstantOf(ext) == Ok(e)
  {
    ValueOfName(e);
  }

  /** An extension that names no constant fails with IllegalArgumentException. */
  lemma ConstantOfUnknown(ext: string)
    requires forall e: Extensao :: Name(e) != Upper(ext)
    ensures ConstantOf(ext).Err? && ConstantOf(ext).error.IllegalArgument?
  {
    assert ValueOf(Upper(ext)).Err?;
  }

  /** Whether the loop body works on a (non-directory) entry at all. */
  predicate Eligible(nodes: map<Path, Node>, file: Path) {
    file != [] && !IsHiddenName(file) && file in nodes && nodes[file].readable && nodes[file].writable
  }

  datatype RenameState = RenameState(nodes: map<Path, Node>, renamed: map<Path, Path>)

  /** The rename target: the new name, prefixed on a collision, in the listed directory. */
  function Target(nn: NewName, ctx: RenameContext, dir: Path, snapshot: seq<string>): Path {
    Resolve(dir, WithCollisionPrefix(nn.name, snapshot, ctx.millis))
  }

  /**
   * One file of the loop: skipped unless eligible; a thrown exception or an
   * unchanged name leaves everything as it was; otherwise rename, record
   * target -> file whatever the rename gave, and run the post-processor,
   * whose own exception is swallowed.
   */
  function RenameFileEffect(st: RenameState, exclusions: seq<string>, ctx: RenameContext,
                            dir: Path, file: Path, snapshot: seq<string>): RenameState
  {
    if !Eligible(st.nodes, file) then st
    else match NewNameOf(exclusions, ctx, NameOf(file))
      case Err(_) => st
      case Ok(nn) =>
        if nn.name == NameOf(file) then st
        else ApplyEffect(st, exclusions, ctx, dir, file, nn, snapshot)
  }

  /** The rename of file to its new name, the record, and the post-processor. */
  function ApplyEffect(st: RenameState, exclusions: seq<string>, ctx: RenameContext,
                       dir: Path, file: Path, nn: NewName, snapshot: seq<string>): RenameState
  {
    var dst := Target(nn, ctx, dir, snapshot);
    var moved := if CanRename(st.nodes, file, dst) then Renamed(st.nodes, file, dst) else st.nodes;
    var a := AudioEffect(moved, st.renamed[dst := file], exclusions, ctx, dst, nn.ext, snapshot);
    RenameState(a.nodes, a.renamed)
  }

  /**
   * Hidden, unreadable and unwritable files, names the pipeline throws on
   * and names that come out unchanged leave the filesystem and the map as
   * they were.
   */
  lemma SkippedFileUntouched(st: RenameState, exclusions: seq<string>, ctx: RenameContext,
                             dir: Path, file: Path, snapshot: seq<string>)
    requires file != []
    requires || IsHiddenName(file) || file !in st.nodes || !st.nodes[file].readable || !st.nodes[file].writable
             || NewNameOf(exclusions, ctx, NameOf(file)).Err?
             || NewNameOf(exclusions, ctx, NameOf(file)).value.name == NameOf(file)
    ensures RenameFileEffect(st, exclusions, ctx, dir, file, snapshot) == st
  {
  }

  /** An eligible file with a new, different name goes through the rename step. */
  lemma EligibleFileApplied(st: RenameState, exclusions: seq<string>, ctx: RenameContext,
                            dir: Path, file: Path, snapshot: seq<string>)
    requires Eligible(st.nodes, file)
    requires NewNameOf(exclusions, ctx, NameOf(file)).Ok?
    requires NewNameOf(exclusions, ctx, NameOf(file)).value.name != NameOf(file)
    ensures RenameFileEffect(st, exclusions, ctx, dir, file, snapshot)
         == ApplyEffect(st, exclusions, ctx, dir, file, NewNameOf(exclusions, ctx, NameOf(file)).value, snapshot)
  {
  }

  /**
   * A renamed file is recorded as target -> file whether or not the rename
   * succeeded; the entry survives unless the post-processor's tag branch
   * replaced it with an entry for its own target.
   */
  lemma RenamedFileRecorded(st: RenameState, exclusions: seq<string>, ctx: RenameContext,
                            dir: Path, file: Path, nn: NewName, snapshot: seq<string>)
    requires ValidTree(st.nodes)
    ensures var dst := Target(nn, ctx, dir, snapshot);
      var moved := if CanRename(st.nodes, file, dst) then Renamed(st.nodes, file, dst) else st.nodes;
      var after := ApplyEffect(st, exclusions, ctx, dir, file, nn, snapshot);
      var tag := ReadTag(moved, dst);
      && (!(tag.Some? && NamesSong(tag.value)) ==> after.renamed == st.renamed[dst := file])
      && (tag.Some? && NamesSong(tag.value) ==>
            after.renamed == (st.renamed[dst := file] - {dst})[TagTarget(ctx, tag.value, nn.ext, dst, snapshot) := dst])
  {
    var dst := Target(nn, ctx, dir, snapshot);
    if CanRename(st.nodes, file, dst) {
      RenamePreservesTree(st.nodes, file, dst);
    }
    var moved := if CanRename(st.nodes, file, dst) then Renamed(st.nodes, file, dst) else st.nodes;
    var tag := ReadTag(moved, dst);
    if tag.Some? && NamesSong(tag.value) {
      TagBranchEffect(moved, st.renamed[dst := file], exclusions, ctx, dst, nn.ext, snapshot);
    }
  }

  /**
   * The run below dir changes nothing outside dir (nodes and map entries)
   * and leaves every directory as it was.
   */
  ghost predicate SameOutside(dir: Path, before: RenameState, after: RenameState) {
    && (forall p | !Under(dir, p) :: (p in after.nodes <==> p in before.nodes)
                                   && (p in before.nodes ==> after.nodes[p] == before.nodes[p]))
    && (forall p | !Under(dir, p) :: (p in after.renamed <==> p in before.renamed)
                                   && (p in before.renamed ==> after.renamed[p] == before.renamed[p]))
    && (forall p | p in before.nodes && before.nodes[p].isDir :: p in after.nodes && after.nodes[p] == before.nodes[p])
    && (forall p | p in after.nodes && after.nodes[p].isDir :: p in before.nodes && before.nodes[p].isDir)
  }

  lemma SameOutsideTransitive(dir: Path, a: RenameState, b: RenameState, c: RenameState)
    requires SameOutside(dir, a, b) && SameOutside(dir, b, c)
    ensures SameOutside(dir, a, c)
  {
  }

  lemma SameOutsideWiden(dir: Path, sub: Path, a: RenameState, b: RenameState)
    requires Under(dir, sub) && SameOutside(sub, a, b)
    ensures SameOutside(dir, a, b)
  {
    forall p | !Under(dir, p) ensures !Under(sub, p) {
      if Under(sub, p) {
        UnderTransitive(dir, sub, p);
      }
    }
  }

  /** The rename and the new map entry stay inside dir and keep the tree valid. */
  lemma MoveFrame(st: RenameState, dir: Path, file: Path, dst: Path)
    requires ValidTree(st.nodes) && file != [] && Parent(file) == dir && Under(dir, dst)
    ensures var moved := if CanRename(st.nodes, file, dst) then Renamed(st.nodes, file, dst) else st.nodes;
      && ValidTree(moved)
      && SameOutside(dir, st, RenameState(moved, st.renamed[dst := file]))
  {
    assert Under(dir, file) by {
      assert file[..|dir|] == dir;
    }
    if CanRename(st.nodes, file, dst) {
      RenamedStaysInside(st.nodes, dir, file, dst);
    }
  }

  /** A rename inside dir changes no node outside it and no directory. */
  lemma RenamedStaysInside(nodes: map<Path, Node>, dir: Path, file: Path, dst: Path)
    requires ValidTree(nodes) && CanRename(nodes, file, dst) && Under(dir, file) && Under(dir, dst)
    ensures var m := Renamed(nodes, file, dst);
      && ValidTree(m)
      && (forall p | !Under(dir, p) :: (p in m <==> p in nodes) && (p in nodes ==> m[p] == nodes[p]))
      && (forall p | p in nodes && nodes[p].isDir :: p in m && m[p] == nodes[p])
      && (forall p | p in m && m[p].isDir :: p in nodes && nodes[p].isDir)
  {
    RenamePreservesTree(nodes, file, dst);
  }

  /** The post-processor's changes stay inside the path it was given. */
  lemma AudioFrame(nodes: map<Path, Node>, renamed: map<Path, Path>, exclusions: seq<string>,
                   ctx: RenameContext, p: Path, ext: Extensao, snapshot: seq<string>)
    requires ValidTree(nodes)
    ensures var a := AudioEffect(nodes, renamed, exclusions, ctx, p, ext, snapshot);
      && ValidTree(a.nodes)
      && SameOutside(p, RenameState(nodes, renamed), RenameState(a.nodes, a.renamed))
  {
    var a := AudioEffect(nodes, renamed, exclusions, ctx, p, ext, snapshot);
    AudioEffectFrame(nodes, renamed, exclusions, ctx, p, ext, snapshot);
    forall q | !Under(p, q) ensures q != p {
      assert q[..|q|] == q;
    }
  }

  /** One file's step stays inside its directory and keeps the tree valid. */
  lemma RenameFileFrame(st: RenameState, exclusions: seq<string>, ctx: RenameContext,
                        dir: Path, file: Path, snapshot: seq<string>)
    requires ValidTree(st.nodes) && file != [] && Parent(file) == dir
    ensures var after := RenameFileEffect(st, exclusions, ctx, dir, file, snapshot);
      && ValidTree(after.nodes) && SameOutside(dir, st, after)
  {
    var after := RenameFileEffect(st, exclusions, ctx, dir, file, snapshot);
    if Eligible(st.nodes, file) && NewNameOf(exclusions, ctx, NameOf(file)).Ok?
       && NewNameOf(exclusions, ctx, NameOf(file)).value.name != NameOf(file)
    {
      var nn := NewNameOf(exclusions, ctx, NameOf(file)).value;
      var dst := Target(nn, ctx, dir, snapshot);
      MoveFrame(st, dir, file, dst);
      var moved := if CanRename(st.nodes, file, dst) then Renamed(st.nodes, file, dst) else st.nodes;
      var mid := RenameState(moved, st.renamed[dst := file]);
      AudioFrame(moved, mid.renamed, exclusions, ctx, dst, nn.ext, snapshot);
      assert after == ApplyEffect(st, exclusions, ctx, dir, file, nn, snapshot);
      SameOutsideWiden(dir, dst, mid, after);
      SameOutsideTransitive(dir, st, mid, after);
    }
  }

  /** Where a walk stands: the state reached, and whether an exception ended it. */
  datatype Walk = Walk(st: RenameState, outcome: Outcome<Exception>)

  /**
   * renomearConteudoDiretorio as a value: the name snapshot and the listing
   * of d are taken in the state the walk reaches d in, then the entries are
   * worked through in listing order.
   */
  function WalkEffect(lister: Lister, st: RenameState, exclusions: seq<string>, ctx: RenameContext,
                      extensions: seq<string>, acceptDirectories: bool, d: Path): Walk
    decreases MaxDepth - |d|, 1
  {
    var listing := FilteredListing(lister, st.nodes, extensions, acceptDirectories, d);
    WalkEntries(lister, st, exclusions, ctx, extensions, acceptDirectories, d, listing, Names(listing), 0)
  }

  /**
   * The loop from entry i on.  A directory is descended into, and building
   * its Diretorio throws NullPointerException when it cannot be read, which
   * ends the whole walk; any other entry is one RenameFileEffect.  (A tree
   * holds no path longer than MaxDepth, so the descent always has room.)
   */
  function WalkEntries(lister: Lister, st: RenameState, exclusions: seq<string>, ctx: RenameContext,
                       extensions: seq<string>, acceptDirectories: bool, d: Path,
                       entries: seq<Path>, snapshot: seq<string>, i: nat): Walk
    requires i <= |entries|
    requires forall x | x in entries :: x != [] && Parent(x) == d
    decreases MaxDepth - |d|, 0, |entries| - i
  {
    if i == |entries| then Walk(st, Pass)
    else
      var x := entries[i];
      assert x in entries;
      assert |x| == |Parent(x)| + 1 == |d| + 1;
      if x in st.nodes && st.nodes[x].isDir then
        if !st.nodes[x].readable then Walk(st, Fail(NullPointer))
        else if |x| > MaxDepth then Walk(st, Pass)
        else
          var w := WalkEffect(lister, st, exclusions, ctx, extensions, acceptDirectories, x);
          if w.outcome.Fail? then w
          else WalkEntries(lister, w.st, exclusions, ctx, extensions, acceptDirectories, d, entries, snapshot, i + 1)
      else
        var next := RenameFileEffect(st, exclusions, ctx, d, x, snapshot);
        WalkEntries(lister, next, exclusions, ctx, extensions, acceptDirectories, d, entries, snapshot, i + 1)
  }

  /**
   * A walk keeps the tree valid, changes nothing outside d (no node, no map
   * entry), never turns anything into a directory, and can only fail with
   * NullPointerException.
   */
  lemma {:induction false} WalkFrame(lister: Lister, st: RenameState, exclusions: seq<string>, ctx: RenameContext,
                                     extensions: seq<string>, acceptDirectories: bool, d: Path)
    requires ValidTree(st.nodes)
    ensures var w := WalkEffect(lister, st, exclusions, ctx, extensions, acceptDirectories, d);
      && ValidTree(w.st.nodes) && SameOutside(d, st, w.st)
      && (w.outcome.Fail? ==> w.outcome.error == NullPointer)
    decreases MaxDepth - |d|, 1
  {
    var listing := FilteredListing(lister, st.nodes, extensions, acceptDirectories, d);
    WalkEntriesFrame(lister, st, exclusions, ctx, extensions, acceptDirectories, d, listing, Names(listing), 0);
  }

  lemma {:induction false} WalkEntriesFrame(lister: Lister, st: RenameState, exclusions: seq<string>,
                                            ctx: RenameContext, extensions: seq<string>, acceptDirectories: bool,
                                            d: Path, entries: seq<Path>, snapshot: seq<string>, i: nat)
    requires i <= |entries|
    requires forall x | x in entries :: x != [] && Parent(x) == d
    requires ValidTree(st.nodes)
    ensures var w := WalkEntries(lister, st, exclusions, ctx, extensions, acceptDirectories, d, entries, snapshot, i);
      && ValidTree(w.st.nodes) && SameOutside(d, st, w.st)
      && (w.outcome.Fail? ==> w.outcome.error == NullPointer)
    decreases MaxDepth - |d|, 0, |entries| - i
  {
    if i < |entries| {
      var x := entries[i];
      assert x in entries;
      if x in st.nodes && st.nodes[x].isDir {
        if st.nodes[x].readable && |x| <= MaxDepth {
          var w := WalkEffect(lister, st, exclusions, ctx, extensions, acceptDirectories, x);
          WalkFrame(lister, st, exclusions, ctx, extensions, acceptDirectories, x);
          assert Under(d, x) by {
            assert x[..|d|] == d;
          }
          SameOutsideWiden(d, x, st, w.st);
          if w.outcome.Pass? {
            WalkEntriesFrame(lister, w.st, exclusions, ctx, extensions, acceptDirectories, d, entries, snapshot, i + 1);
            SameOutsideTransitive(d, st, w.st,
              WalkEntries(lister, w.st, exclusions, ctx, extensions, acceptDirectories, d, entries, snapshot, i + 1).st);
          }
        }
      } else {
        var next := RenameFileEffect(st, exclusions, ctx, d, x, snapshot);
        RenameFileFrame(st, exclusions, ctx, d, x, snapshot);
        WalkEntriesFrame(lister, next, exclusions, ctx, extensions, acceptDirectories, d, entries, snapshot, i + 1);
        SameOutsideTransitive(d, st, next,
          WalkEntries(lister, next, exclusions, ctx, extensions, acceptDirectories, d, entries, snapshot, i + 1).st);
      }
    }
  }

  /**
   * A filter that rejects directories keeps them out of the listing, so the
   * walk never descends and never throws: renaming without
   * INCLUDE_SUB_DIRECTORIES always completes.
   */
  lemma WalkWithoutDirectoriesPasses(lister: Lister, st: RenameState, exclusions: seq<string>, ctx: RenameContext,
                                     extensions: seq<string>, d: Path)
    requires ValidTree(st.nodes)
    ensures WalkEffect(lister, st, exclusions, ctx, extensions, false, d).outcome == Pass
  {
    var listing := FilteredListing(lister, st.nodes, extensions, false, d);
    assert listing == AcceptedListing(lister, st.nodes, extensions, false, d);
    forall x | x in listing ensures !(x in st.nodes && st.nodes[x].isDir) {
      ListedWithoutDirectories(st.nodes, extensions, d, x);
    }
    FilesOnlyPass(lister, st, st, exclusions, ctx, extensions, d, listing, Names(listing), 0);
  }

  /** The loop over entries none of which was a directory when the walk began. */
  lemma {:induction false} FilesOnlyPass(lister: Lister, st0: RenameState, st: RenameState, exclusions: seq<string>,
                                         ctx: RenameContext, extensions: seq<string>, d: Path,
                                         entries: seq<Path>, snapshot: seq<string>, i: nat)
    requires i <= |entries|
    requires forall x | x in entries :: x != [] && Parent(x) == d
    requires forall x | x in entries :: !(x in st0.nodes && st0.nodes[x].isDir)
    requires forall p | p in st.nodes && st.nodes[p].isDir :: p in st0.nodes && st0.nodes[p].isDir
    requires ValidTree(st.nodes)
    ensures WalkEntries(lister, st, exclusions, ctx, extensions, false, d, entries, snapshot, i).outcome == Pass
    decreases |entries| - i
  {
    if i < |entries| {
      var x := entries[i];
      assert x in entries;
      var next := RenameFileEffect(st, exclusions, ctx, d, x, snapshot);
      RenameFileFrame(st, exclusions, ctx, d, x, snapshot);
      FilesOnlyPass(lister, st0, next, exclusions, ctx, extensions, d, entries, snapshot, i + 1);
    }
  }

  /**
   * A walk that starts from an empty map: it stays inside d, records only
   * paths inside d, can only fail with NullPointerException, and cannot fail
   * when the filter rejects directories.
   */
  lemma WalkFromScratch(lister: Lister, st: RenameState, exclusions: seq<string>, ctx: RenameContext,
                        extensions: seq<string>, acceptDirectories: bool, d: Path)
    requires ValidTree(st.nodes) && st.renamed == map[]
    ensures var w := WalkEffect(lister, st, exclusions, ctx, extensions, acceptDirectories, d);
      && ValidTree(w.st.nodes)
      && SameOutside(d, st, RenameState(w.st.nodes, if w.outcome.Pass? then w.st.renamed else map[]))
      && (forall p | p in w.st.renamed :: Under(d, p))
      && (w.outcome.Fail? ==> w.outcome.error == NullPointer)
      && (!acceptDirectories ==> w.outcome == Pass)
  {
    var w := WalkEffect(lister, st, exclusions, ctx, extensions, acceptDirectories, d);
    WalkFrame(lister, st, exclusions, ctx, extensions, acceptDirectories, d);
    if !acceptDirectories {
      WalkWithoutDirectoriesPasses(lister, st, exclusions, ctx, extensions, d);
    }
  }

  /**
   * A missing filter becomes the all-extensions filter, which accepts
   * directories exactly when INCLUDE_SUB_DIRECTORIES is present and true;
   * a given filter is used as it is.
   */
  method EffectiveFilter(requested: Option<FiltroExtensoes>, includeSubDirectories: Option<bool>,
                         text: Extensao -> string)
    returns (filter: FiltroExtensoes)
    ensures requested.Some? ==> filter == requested.value
    ensures requested.None? ==>
      (fresh(filter) && filter.extensionsAccepted == AsStrings(text)
       && filter.description == None && filter.acceptDirectories == (includeSubDirectories == Some(true)))
  {
    var flag := if includeSubDirectories.None? then false else includeSubDirectories.value;
    if requested.Some? {
      return requested.value;
    }
    filter := AllAcceptedFilter(text);
    filter.SetAcceptDirectories(flag);
  }

  class Renomeador {
    const exclusions: ExclusionManagerService
    /** The only PostProcessor bean: the one for AUDIO. */
    const audio: AudioPostProcessor

    /** The post-processor works from the same exclusion list. */
    predicate Wired() {
      audio.exclusions == exclusions && audio.Wired()
    }

    constructor (exclusions: ExclusionManagerService, audio: AudioPostProcessor)
      requires audio.exclusions == exclusions && audio.Wired()
      ensures this.exclusions == exclusions && this.audio == audio && Wired()
    {
      this.exclusions := exclusions;
      this.audio := audio;
    }

    /** getBean(BEAN_NAME_FORMAT + type): only AUDIO has a post-processor. */
    method GetPostProcessor(t: FileType) returns (r: Result<AudioPostProcessor, Exception>)
      ensures r.Ok? <==> t == AUDIO
      ensures r.Ok? ==> r.value == audio
      ensures r.Err? ==> r.error == NoSuchBeanDefinition
    {
      if t == AUDIO {
        return Ok(audio);
      }
      return Err(NoSuchBeanDefinition);
    }

    /**
     * processNumbers: unless an exclusion, lowercased, starts the name,
     * repeatedly drops the chars before the first space or lowercase letter
     * and trims, until the name starts with a lowercase letter; charAt(0) on
     * an emptied name throws.
     */
    method ProcessNumbers(name: string) returns (r: Result<string, Exception>)
      ensures r == ProcessedNumbers(exclusions.exclusions, name)
    {
      var newName := name;
      var ok := NoExclusionStarts(newName);
      if !ok {
        return Ok(newName);
      }
      var repetir := true;
      while repetir
        invariant StripToLetter(newName) == StripToLetter(name)
        invariant !repetir ==> newName != [] && IsLowerLetter(newName[0]) && Trim(newName) == newName
        decreases |newName|, repetir
      {
        var temp, k := DropToSpaceOrLetter(newName);
        StripPrefixKeeps(newName, k);
        StripTrimKeeps(temp);
        ghost var previous := newName;
        TrimIdempotent(temp);
        newName := Trim(temp);
        if newName == [] {
          return Err(StringIndexOutOfBounds);
        }
        if IsLowerLetter(newName[0]) {
          repetir := false;
        } else if k == 0 {
          assert previous != [] && previous[0] == ' ';
          TrimShortensBlankHead(previous);
        }
      }
      assert newName[0..] == newName;
      return Ok(newName);
    }

    /** The exclusion scan of processNumbers: every entry is tried, without stopping early. */
    method NoExclusionStarts(name: string) returns (ok: bool)
      ensures ok == !ExclusionPrefix(exclusions.exclusions, name)
    {
      ok := true;
      for j := 0 to |exclusions.exclusions|
        invariant ok <==> forall m | 0 <= m < j :: !StartsWith(name, Lower(exclusions.exclusions[m]))
      {
        if StartsWith(name, Lower(exclusions.exclusions[j])) {
          ok := false;
        }
      }
    }

    /**
     * The inner loop of processNumbers: drops every char before the first
     * space or lowercase letter (everything, when there is none).
     */
    method DropToSpaceOrLetter(newName: string) returns (temp: string, ghost k: nat)
      ensures k <= |newName| && temp == newName[k..]
      ensures forall m | 0 <= m < k :: newName[m] != ' ' && !IsLowerLetter(newName[m])
      ensures k < |newName| ==> newName[k] == ' ' || IsLowerLetter(newName[k])
    {
      var continuar := true;
      temp := newName;
      var i := 0;
      k := 0;
      while continuar && i < |newName|
        invariant 0 <= k <= i <= |newName|
        invariant temp == newName[k..]
        invariant forall m | 0 <= m < k :: newName[m] != ' ' && !IsLowerLetter(newName[m])
        invariant continuar ==> k == i
        invariant !continuar ==> k + 1 == i && (newName[k] == ' ' || IsLowerLetter(newName[k]))
      {
        var ch := newName[i];
        if ch == ' ' || IsLowerLetter(ch) {
          continuar := false;
        } else {
          temp := newName[i + 1..];
          k := i + 1;
        }
        i := i + 1;
      }
    }

    /** The loop body's name pipeline up to the final title case. */
    method BuildNewName(originalName: string, ctx: RenameContext) returns (r: Result<NewName, Exception>)
      requires Wired()
      ensures r == NewNameOf(exclusions.exclusions, ctx, originalName)
    {
      var newName := Lower(Trim(originalName));
      var nameSeparated := SplitExtension(newName);
      if nameSeparated.Err? {
        return Err(nameSeparated.error);
      }
      var extensao := nameSeparated.value.ext;
      var ext := ConstantOf(extensao);
      if ext.Err? {
        return Err(ext.error);
      }
      var postProcessor := GetPostProcessor(Type(ext.value));
      if postProcessor.Err? {
        return Err(postProcessor.error);
      }
      newName := Trim(nameSeparated.value.base);
      newName := Replaces(ctx.catalog, newName);
      newName := Trim(newName);
      var numbers := ProcessNumbers(newName);
      if numbers.Err? {
        return Err(numbers.error);
      }
      newName := Trim(numbers.value);
      newName := postProcessor.value.ProcessFileName(newName);
      newName := Trim(newName);
      newName := newName + "." + extensao;
      newName := ctx.unescapeXml(newName);
      newName := ctx.capitalizeFully(newName);
      return Ok(NewName(newName, ext.value));
    }

    /** The loop body for an entry that is not a directory; every exception is caught. */
    method RenameFile(fs: FileSystem, dir: Path, fileToRename: Path, originalFileList: seq<string>,
                      result: RenamingResult, ctx: RenameContext)
      requires Wired() && fs.Valid() && fileToRename != []
      modifies fs, result
      ensures fs.Valid()
      ensures RenameState(fs.nodes, result.renamedFiles)
              == RenameFileEffect(RenameState(old(fs.nodes), old(result.renamedFiles)),
                                  exclusions.exclusions, ctx, dir, fileToRename, originalFileList)
    {
      ghost var st := RenameState(fs.nodes, result.renamedFiles);
      if IsHiddenName(fileToRename) || !fs.CanRead(fileToRename) || !fs.CanWrite(fileToRename) {
        SkippedFileUntouched(st, exclusions.exclusions, ctx, dir, fileToRename, originalFileList);
        return;
      }
      var originalName := NameOf(fileToRename);
      var built := BuildNewName(originalName, ctx);
      if built.Err? || originalName == built.value.name {
        SkippedFileUntouched(st, exclusions.exclusions, ctx, dir, fileToRename, originalFileList);
        return;
      }
      EligibleFileApplied(st, exclusions.exclusions, ctx, dir, fileToRename, originalFileList);
      ApplyNewName(fs, dir, fileToRename, built.value, originalFileList, result, ctx);
    }

    /** A listed entry that is not a directory: its step stays inside the directory. */
    method RenameListedFile(fs: FileSystem, dir: Path, fileToRename: Path, originalFileList: seq<string>,
                            result: RenamingResult, ctx: RenameContext)
      requires Wired() && fs.Valid() && fileToRename != [] && Parent(fileToRename) == dir
      modifies fs, result
      ensures fs.Valid()
      ensures RenameState(fs.nodes, result.renamedFiles)
              == RenameFileEffect(RenameState(old(fs.nodes), old(result.renamedFiles)),
                                  exclusions.exclusions, ctx, dir, fileToRename, originalFileList)
      ensures SameOutside(dir, RenameState(old(fs.nodes), old(result.renamedFiles)),
                          RenameState(fs.nodes, result.renamedFiles))
    {
      ghost var before := RenameState(fs.nodes, result.renamedFiles);
      RenameFile(fs, dir, fileToRename, originalFileList, result, ctx);
      RenameFileFrame(before, exclusions.exclusions, ctx, dir, fileToRename, originalFileList);
    }

    /** The rename to the new name, the record new -> old, then processFile. */
    method ApplyNewName(fs: FileSystem, dir: Path, fileToRename: Path, nn: NewName, originalFileList: seq<string>,
                        result: RenamingResult, ctx: RenameContext)
      requires Wired() && fs.Valid()
      modifies fs, result
      ensures fs.Valid()
      ensures RenameState(fs.nodes, result.renamedFiles)
              == ApplyEffect(RenameState(old(fs.nodes), old(result.renamedFiles)),
                             exclusions.exclusions, ctx, dir, fileToRename, nn, originalFileList)
    {
      var newName := nn.name;
      var renamedFile := Resolve(dir, newName);
      if newName in originalFileList {
        newName := "(" + NatToString(ctx.millis) + ") " + newName;
        renamedFile := Resolve(dir, newName);
      }
      assert renamedFile == Target(nn, ctx, dir, originalFileList);
      var moved := fs.RenameTo(fileToRename, renamedFile);
      result.renamedFiles := result.renamedFiles[renamedFile := fileToRename];
      var ignored := audio.ProcessFile(fs, result, renamedFile, nn.ext, originalFileList, ctx);
    }

    /**
     * renomearConteudoDiretorio: takes the name snapshot and the listing
     * once, then walks the listing; a directory entry is descended into
     * with its own snapshot and the same result, any other entry goes
     * through RenameFile.  Building the Diretorio of an unlistable
     * subdirectory throws NullPointerException, which ends the whole walk.
     */
    method RenameDirectory(fs: FileSystem, contentDirectory: Diretorio, filter: FiltroExtensoes,
                           result: RenamingResult, ctx: RenameContext)
      returns (outcome: Outcome<Exception>)
      requires Wired() && fs.Valid()
      modifies fs, result
      ensures fs.Valid()
      ensures SameOutside(contentDirectory.path, RenameState(old(fs.nodes), old(result.renamedFiles)),
                          RenameState(fs.nodes, result.renamedFiles))
      ensures outcome.Fail? ==> outcome.error == NullPointer
      ensures Walk(RenameState(fs.nodes, result.renamedFiles), outcome)
              == WalkEffect(fs.lister, RenameState(old(fs.nodes), old(result.renamedFiles)), exclusions.exclusions, ctx,
                            filter.extensionsAccepted, filter.acceptDirectories, contentDirectory.path)
      decreases MaxDepth - |contentDirectory.path|, 1
    {
      var originalFileList := contentDirectory.ListFileNames(fs, filter);
      var conteudo := contentDirectory.ListarConteudo(fs, filter);
      ghost var start := RenameState(fs.nodes, result.renamedFiles);
      WalkFrame(fs.lister, start, exclusions.exclusions, ctx, filter.extensionsAccepted, filter.acceptDirectories,
                contentDirectory.path);
      outcome := RenameEntries(fs, contentDirectory.path, conteudo, originalFileList, filter, result, ctx);
    }

    /** The loop of renomearConteudoDiretorio over the listing of dir. */
    method RenameEntries(fs: FileSystem, dir: Path, conteudo: seq<Path>, originalFileList: seq<string>,
                         filter: FiltroExtensoes, result: RenamingResult, ctx: RenameContext)
      returns (outcome: Outcome<Exception>)
      requires Wired() && fs.Valid()
      requires forall x | x in conteudo :: x != [] && Parent(x) == dir
      modifies fs, result
      ensures fs.Valid()
      ensures Walk(RenameState(fs.nodes, result.renamedFiles), outcome)
              == WalkEntries(fs.lister, RenameState(old(fs.nodes), old(result.renamedFiles)), exclusions.exclusions, ctx,
                             filter.extensionsAccepted, filter.acceptDirectories, dir, conteudo, originalFileList, 0)
      decreases MaxDepth - |dir|, 0
    {
      ghost var whole := WalkEntries(fs.lister, RenameState(fs.nodes, result.renamedFiles), exclusions.exclusions, ctx,
                                     filter.extensionsAccepted, filter.acceptDirectories, dir, conteudo, originalFileList, 0);
      outcome := Pass;
      for k := 0 to |conteudo|
        invariant fs.Valid()
        invariant outcome == Pass
        invariant whole == WalkEntries(fs.lister, RenameState(fs.nodes, result.renamedFiles), exclusions.exclusions, ctx,
                                       filter.extensionsAccepted, filter.acceptDirectories, dir, conteudo,
                                       originalFileList, k)
      {
        var fileToRename := conteudo[k];
        assert fileToRename in conteudo;
        assert |fileToRename| == |Parent(fileToRename)| + 1 == |dir| + 1;
        if fs.IsDirectory(fileToRename) {
          assert WellPlaced(fs.nodes, fileToRename);
          var subDir := NewDiretorio(fs, fileToRename);
          if subDir.Err? {
            return Fail(subDir.error);
          }
          outcome := RenameDirectory(fs, subDir.value, filter, result, ctx);
          if outcome.Fail? {
            return;
          }
        } else {
          RenameListedFile(fs, dir, fileToRename, originalFileList, result, ctx);
        }
      }
    }

    /**
     * execute: the directory is required (a missing one throws
     * NullPointerException); the filter defaults as EffectiveFilter says.
     * The result records only paths inside the directory, and
     * duplicatedFiles stays empty.
     */
    method Execute(fs: FileSystem, directory: Option<Diretorio>, requested: Option<FiltroExtensoes>,
                   includeSubDirectories: Option<bool>, ctx: RenameContext)
      returns (r: Result<RenamingResult, Exception>)
      requires Wired() && fs.Valid()
      modifies fs
      ensures fs.Valid()
      ensures r.Err? ==> r.error == NullPointer
      ensures directory.None? ==> r.Err? && fs.nodes == old(fs.nodes)
      ensures directory.Some? ==> SameOutside(directory.value.path, RenameState(old(fs.nodes), map[]),
                                              RenameState(fs.nodes, if r.Ok? then r.value.renamedFiles else map[]))
      ensures r.Ok? ==> fresh(r.value) && r.value.currentDirectory == directory && r.value.duplicatedFiles == map[]
      ensures r.Ok? ==> forall p | p in r.value.renamedFiles :: Under(directory.value.path, p)
      ensures directory.Some? ==>
        var w := WalkEffect(fs.lister, RenameState(old(fs.nodes), map[]), exclusions.exclusions, ctx,
                            if requested.Some? then old(requested.value.extensionsAccepted) else AsStrings(ctx.text),
                            if requested.Some? then old(requested.value.acceptDirectories)
                            else includeSubDirectories == Some(true),
                            directory.value.path);
        && fs.nodes == w.st.nodes
        && (r.Ok? <==> w.outcome == Pass)
        && (r.Ok? ==> r.value.renamedFiles == w.st.renamed)
      ensures directory.Some? && requested.None? && includeSubDirectories != Some(true) ==> r.Ok?
    {
      ghost var exts := if requested.Some? then requested.value.extensionsAccepted else AsStrings(ctx.text);
      ghost var flag := if requested.Some? then requested.value.acceptDirectories else includeSubDirectories == Some(true);
      var filter := EffectiveFilter(requested, includeSubDirectories, ctx.text);
      if directory.None? {
        return Err(NullPointer);
      }
      r := RenameIn(fs, directory.value, filter, ctx, exts, flag);
    }

    /** execute once the directory is known and the filter chosen. */
    method RenameIn(fs: FileSystem, directory: Diretorio, filter: FiltroExtensoes, ctx: RenameContext,
                    ghost exts: seq<string>, ghost flag: bool)
      returns (r: Result<RenamingResult, Exception>)
      requires Wired() && fs.Valid()
      requires filter.extensionsAccepted == exts && filter.acceptDirectories == flag
      modifies fs
      ensures fs.Valid()
      ensures r.Err? ==> r.error == NullPointer
      ensures SameOutside(directory.path, RenameState(old(fs.nodes), map[]),
                          RenameState(fs.nodes, if r.Ok? then r.value.renamedFiles else map[]))
      ensures r.Ok? ==> fresh(r.value) && r.value.currentDirectory == Some(directory) && r.value.duplicatedFiles == map[]
      ensures r.Ok? ==> forall p | p in r.value.renamedFiles :: Under(directory.path, p)
      ensures var w := WalkEffect(fs.lister, RenameState(old(fs.nodes), map[]), exclusions.exclusions, ctx, exts, flag,
                                  directory.path);
        && fs.nodes == w.st.nodes
        && (r.Ok? <==> w.outcome == Pass)
        && (r.Ok? ==> r.value.renamedFiles == w.st.renamed)
      ensures !flag ==> r.Ok?
    {
      WalkFromScratch(fs.lister, RenameState(fs.nodes, map[]), exclusions.exclusions, ctx, exts, flag, directory.path);
      var outcome, result := RenameTree(fs, directory, filter, ctx);
      if outcome.Fail? {
        return Err(outcome.error);
      }
      r := Ok(result);
    }

    /** A fresh RenamingResult for directory, then the walk over it. */
    method RenameTree(fs: FileSystem, directory: Diretorio, filter: FiltroExtensoes, ctx: RenameContext)
      returns (outcome: Outcome<Exception>, result: RenamingResult)
      requires Wired() && fs.Valid()
      modifies fs
      ensures fs.Valid()
      ensures fresh(result) && result.currentDirectory == Some(directory) && result.duplicatedFiles == map[]
      ensures Walk(RenameState(fs.nodes, result.renamedFiles), outcome)
              == WalkEffect(fs.lister, RenameState(old(fs.nodes), map[]), exclusions.exclusions, ctx,
                            filter.extensionsAccepted, filter.acceptDirectories, directory.path)
    {
      result := new RenamingResult(Some(directory));
      outcome := RenameDirectory(fs, directory, filter, result, ctx);
    }
  }
}
