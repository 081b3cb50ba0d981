/**
 * FileSystemController.listDirectory: the directory browser's listing.  The
 * path (the user's home when none is given) goes through PathSecurityService;
 * a missing, non-directory or unreadable directory is a failure response; the
 * listing is a ".." entry when the directory has a parent, then every visible
 * child (only sub-directories unless files are asked for), sorted parent
 * first, directories before files, then by name ignoring case.
 */
module FileSystemControllerModel {
  import opened Wrappers
  import opened JavaErrors
  import opened JavaStrings
  import opened Sorting
  import opened FileSystemModel
  import opened PathSecurity

  /** FileSystemEntry; size and lastModified are null (None) for directories. */
  datatype Entry = Entry(path: Path, name: string, isDirectory: bool, isParent: bool,
                         readable: bool, writable: bool, size: Option<nat>, lastModified: Option<int>)

  /** The response body: a failure message, or the directory and its entries. */
  datatype Response = Failure(message: string) | Success(currentPath: Path, entries: seq<Entry>)

  const ParentName := ".."

  /** The path listed: the one given unless it is null or empty, else the user's home. */
  function DirectoryPath(path: Option<string>, userHome: string): (d: string)
    ensures path.Some? && path.value != [] ==> d == path.value
    ensures path.None? || path.value == [] ==> d == userHome
  {
    if path.Some? && path.value != [] then path.value else userHome
  }

  /** getMessage of the exceptions validation raises. */
  function MessageOf(e: Exception): string {
    match e
    case IllegalArgument(m) => m
    case Security(m) => m
    case _ => ""
  }

  /** The ".." entry: the parent directory, readable, writable as the parent is. */
  function ParentEntry(nodes: map<Path, Node>, dir: Path): (e: Entry)
    requires dir != []
    ensures e.isParent && e.isDirectory && e.readable && e.name == ParentName && e.path == Parent(dir)
    ensures e.size.None? && e.lastModified.None?
  {
    var parent := Parent(dir);
    Entry(parent, ParentName, true, true, true, parent in nodes && nodes[parent].writable, None, None)
  }

  /** The entry of one child; size and date only for a file. */
  function EntryOf(nodes: map<Path, Node>, p: Path): (e: Entry)
    requires p in nodes && p != []
    ensures e.path == p && e.name == NameOf(p) && !e.isParent
    ensures e.isDirectory == nodes[p].isDir && e.readable == nodes[p].readable && e.writable == nodes[p].writable
    ensures e.size.Some? <==> !e.isDirectory
    ensures e.lastModified.Some? <==> !e.isDirectory
    ensures !e.isDirectory ==> e.size == Some(nodes[p].length) && e.lastModified == Some(nodes[p].lastModified)
  {
    var n := nodes[p];
    if n.isDir then Entry(p, NameOf(p), true, false, n.readable, n.writable, None, None)
    else Entry(p, NameOf(p), false, false, n.readable, n.writable, Some(n.length), Some(n.lastModified))
  }

  /** A child the loop keeps: not hidden, and a directory unless files are included. */
  predicate Kept(nodes: map<Path, Node>, includeFiles: bool, p: Path)
    requires p in nodes
  {
    !IsHiddenName(p) && (includeFiles || nodes[p].isDir)
  }

  /** The entries the loop adds for the children listed, in listing order. */
  function ChildEntries(nodes: map<Path, Node>, includeFiles: bool, files: seq<Path>): seq<Entry>
    requires forall i | 0 <= i < |files| :: files[i] in nodes && files[i] != []
  {
    if files == [] then []
    else
      var p := files[|files| - 1];
      ChildEntries(nodes, includeFiles, files[..|files| - 1])
        + (if Kept(nodes, includeFiles, p) then [EntryOf(nodes, p)] else [])
  }

  /** The entries are those of the kept children, each once. */
  lemma {:induction false} ChildEntriesMembers(nodes: map<Path, Node>, includeFiles: bool, files: seq<Path>)
    requires forall i | 0 <= i < |files| :: files[i] in nodes && files[i] != []
    ensures forall e :: e in ChildEntries(nodes, includeFiles, files) <==>
      e.path in files && e.path in nodes && e.path != [] && Kept(nodes, includeFiles, e.path) && e == EntryOf(nodes, e.path)
    ensures Distinct(files) ==> Distinct(ChildEntries(nodes, includeFiles, files))
  {
    if files != [] {
      var init, p := files[..|files| - 1], files[|files| - 1];
      ChildEntriesMembers(nodes, includeFiles, init);
      assert files == init + [p];
      if Distinct(files) {
        assert Distinct(init) by {
          forall i, j | 0 <= i < j < |init| ensures init[i] != init[j] {
            assert init[i] == files[i] && init[j] == files[j];
          }
        }
        assert p !in init by {
          forall k | 0 <= k < |init| ensures init[k] != p {
            assert init[k] == files[k];
          }
        }
        DistinctConcat(ChildEntries(nodes, includeFiles, init),
                       if Kept(nodes, includeFiles, p) then [EntryOf(nodes, p)] else []);
      }
    }
  }

  /** String.compareToIgnoreCase, on the ASCII case mapping of the model. */
  function CompareIgnoreCase(a: string, b: string): int {
    CodePointCompare(Lower(a), Lower(b))
  }

  /** The comparator of the sort: parent first, directories before files, then names ignoring case. */
  function EntryCompare(a: Entry, b: Entry): int {
    if a.isParent then -1
    else if b.isParent then 1
    else if a.isDirectory && !b.isDirectory then -1
    else if !a.isDirectory && b.isDirectory then 1
    else CompareIgnoreCase(a.name, b.name)
  }

  predicate EntryLe(a: Entry, b: Entry) {
    EntryCompare(a, b) <= 0
  }

  /** The comparator is a total preorder, so the stable sort is well defined. */
  lemma EntryOrderIsTotalPreorder()
    ensures TotalPreorder(EntryLe)
  {
    forall a, b ensures EntryLe(a, b) || EntryLe(b, a) {
      CodePointCompareAntisymmetric(Lower(a.name), Lower(b.name));
    }
    forall a, b, c | EntryLe(a, b) && EntryLe(b, c) ensures EntryLe(a, c) {
      if !a.isParent && !b.isParent && !c.isParent && a.isDirectory == b.isDirectory == c.isDirectory {
        CodePointCompareTransitive(Lower(a.name), Lower(b.name), Lower(c.name));
      }
    }
  }

  /** In a sorted listing the parent entry, if any, comes first. */
  lemma ParentComesFirst(entries: seq<Entry>, k: nat)
    requires SortedBy(entries, EntryLe)
    requires k < |entries| && entries[k].isParent
    ensures entries[0].isParent
  {
    if k > 0 {
      assert EntryLe(entries[0], entries[k]);
    }
  }

  /** In a sorted listing no file comes before a directory, apart from the parent entry. */
  lemma DirectoriesBeforeFiles(entries: seq<Entry>, i: nat, j: nat)
    requires SortedBy(entries, EntryLe)
    requires i < j < |entries| && !entries[i].isParent && !entries[j].isParent && entries[j].isDirectory
    ensures entries[i].isDirectory
  {
    assert EntryLe(entries[i], entries[j]);
  }

  /** e belongs in the listing of dir: the parent entry, or the entry of a kept child. */
  predicate InListing(nodes: map<Path, Node>, dir: Path, includeFiles: bool, e: Entry) {
    || (dir != [] && e == ParentEntry(nodes, dir))
    || (e.path in nodes && e.path != [] && Parent(e.path) == dir && Kept(nodes, includeFiles, e.path)
        && e == EntryOf(nodes, e.path))
  }

  /** A successful listing of dir: sorted, with exactly the entries that belong in it, each once. */
  ghost predicate ListingOf(nodes: map<Path, Node>, dir: Path, includeFiles: bool, entries: seq<Entry>) {
    && SortedBy(entries, EntryLe)
    && (forall e :: e in entries <==> InListing(nodes, dir, includeFiles, e))
    && Distinct(entries)
  }

  /**
   * What a listing promises the browser: the parent entry first exactly when
   * dir has a parent; no hidden entry; only directories unless files are
   * asked for; a size and a date exactly on files.
   */
  lemma ListingShape(nodes: map<Path, Node>, dir: Path, includeFiles: bool, entries: seq<Entry>)
    requires ListingOf(nodes, dir, includeFiles, entries)
    ensures dir != [] ==> |entries| > 0 && entries[0] == ParentEntry(nodes, dir)
    ensures dir == [] ==> forall e | e in entries :: !e.isParent
    ensures forall e | e in entries && !e.isParent :: !IsHiddenName(e.path)
    ensures !includeFiles ==> forall e | e in entries :: e.isDirectory
    ensures forall e | e in entries :: (e.size.Some? <==> !e.isDirectory) && (e.lastModified.Some? <==> !e.isDirectory)
  {
    if dir != [] {
      var pe := ParentEntry(nodes, dir);
      assert InListing(nodes, dir, includeFiles, pe);
      var k :| 0 <= k < |entries| && entries[k] == pe;
      ParentComesFirst(entries, k);
      assert InListing(nodes, dir, includeFiles, entries[0]);
    }
  }

  /** The entries of a listable directory before the sort: the parent entry, then the kept children. */
  method CollectEntries(fs: FileSystem, directory: Path, includeFiles: bool) returns (entries: seq<Entry>)
    requires fs.IsListable(directory)
    ensures forall e :: e in entries <==> InListing(fs.nodes, directory, includeFiles, e)
    ensures Distinct(entries)
  {
    var listed := fs.ListFiles(directory);
    var files := if listed.Some? then listed.value else [];
    assert forall p :: p in files <==> p in fs.nodes && p != [] && Parent(p) == directory by {
      assert forall p :: p in files <==> p in fs.Children(directory);
    }
    entries := [];
    if directory != [] {
      entries := entries + [ParentEntry(fs.nodes, directory)];
    }
    CollectedMembers(fs.nodes, directory, includeFiles, files, entries);
    var children := CollectChildren(fs, includeFiles, files);
    ChildEntriesMembers(fs.nodes, includeFiles, files);
    DistinctConcat(entries, children);
    entries := entries + children;
  }

  /** The loop over the listed children, in listing order. */
  method CollectChildren(fs: FileSystem, includeFiles: bool, files: seq<Path>) returns (entries: seq<Entry>)
    requires forall i | 0 <= i < |files| :: files[i] in fs.nodes && files[i] != []
    ensures entries == ChildEntries(fs.nodes, includeFiles, files)
  {
    entries := [];
    for n := 0 to |files|
      invariant entries == ChildEntries(fs.nodes, includeFiles, files[..n])
    {
      ChildEntriesSnoc(fs.nodes, includeFiles, files, n);
      var entry := ChildEntry(fs, includeFiles, files[n]);
      entries := entries + entry;
    }
    assert files[..|files|] == files;
  }

  /** The parent entry, if any, and the kept children are exactly the listing. */
  lemma CollectedMembers(nodes: map<Path, Node>, directory: Path, includeFiles: bool, files: seq<Path>,
                         initial: seq<Entry>)
    requires forall p :: p in files <==> p in nodes && p != [] && Parent(p) == directory
    requires initial == if directory != [] then [ParentEntry(nodes, directory)] else []
    ensures forall i | 0 <= i < |files| :: files[i] in nodes && files[i] != []
    ensures forall e :: e in initial + ChildEntries(nodes, includeFiles, files)
                    <==> InListing(nodes, directory, includeFiles, e)
  {
    assert forall i | 0 <= i < |files| :: files[i] in files;
    ChildEntriesMembers(nodes, includeFiles, files);
  }

  lemma ChildEntriesSnoc(nodes: map<Path, Node>, includeFiles: bool, files: seq<Path>, n: nat)
    requires n < |files| && forall i | 0 <= i < |files| :: files[i] in nodes && files[i] != []
    ensures ChildEntries(nodes, includeFiles, files[..n + 1])
         == ChildEntries(nodes, includeFiles, files[..n])
            + (if Kept(nodes, includeFiles, files[n]) then [EntryOf(nodes, files[n])] else [])
  {
    assert files[..n + 1][..n] == files[..n];
  }

  /** One child of the loop: hidden entries, and files when only directories are wanted, are skipped. */
  method ChildEntry(fs: FileSystem, includeFiles: bool, file: Path) returns (entry: seq<Entry>)
    requires file in fs.nodes && file != []
    ensures entry == if Kept(fs.nodes, includeFiles, file) then [EntryOf(fs.nodes, file)] else []
  {
    if IsHiddenName(file) {
      return [];
    }
    if !includeFiles && !fs.IsDirectory(file) {
      return [];
    }
    return [EntryOf(fs.nodes, file)];
  }

  /** The entries of a listable directory, sorted with the comparator. */
  method ListEntries(fs: FileSystem, directory: Path, includeFiles: bool) returns (entries: seq<Entry>)
    requires fs.IsListable(directory)
    ensures ListingOf(fs.nodes, directory, includeFiles, entries)
  {
    var unsorted := CollectEntries(fs, directory, includeFiles);
    entries := Sort(unsorted, EntryLe);
    EntryOrderIsTotalPreorder();
    SortSorted(unsorted, EntryLe);
    forall e ensures e in entries <==> InListing(fs.nodes, directory, includeFiles, e) {
      SortKeepsElements(unsorted, EntryLe, e);
    }
    PermutationKeepsDistinct(unsorted, entries);
  }

  /**
   * listDirectory.  The security service is consulted first (and builds its
   * list of bases on first use); then existence, directory and readability are
   * checked in that order, each failure with its own message.
   */
  method ListDirectory(fs: FileSystem, svc: PathSecurityService, path: Option<string>, includeFiles: bool,
                       userHome: string, tmpDir: string, resolve: Resolver)
    returns (r: Response)
    modifies svc
    ensures svc.allowedBasePaths.Some?
    ensures old(svc.allowedBasePaths).Some? ==> svc.allowedBasePaths == old(svc.allowedBasePaths)
    ensures old(svc.allowedBasePaths).None? ==>
      svc.allowedBasePaths == Some(AllowedPaths(svc.allowedPathsConfig, userHome, tmpDir))
    ensures var dp := DirectoryPath(path, userHome);
      var v := Validate(svc.allowedBasePaths.value, Some(dp), resolve);
      && (v.Err? ==> r == Failure(MessageOf(v.error)))
      && (v.Ok? && v.value !in fs.nodes ==> r == Failure("Directory does not exist: " + dp))
      && (v.Ok? && v.value in fs.nodes && !fs.nodes[v.value].isDir ==> r == Failure("Path is not a directory: " + dp))
      && (v.Ok? && v.value in fs.nodes && fs.nodes[v.value].isDir && !fs.nodes[v.value].readable ==>
            r == Failure("Cannot read directory: " + dp))
      && (v.Ok? && fs.IsListable(v.value) ==>
            r.Success? && r.currentPath == v.value && ListingOf(fs.nodes, v.value, includeFiles, r.entries))
  {
    var directoryPath := DirectoryPath(path, userHome);
    var validated := svc.ValidateAndNormalizePath(Some(directoryPath), userHome, tmpDir, resolve);
    if validated.Err? {
      return Failure(MessageOf(validated.error));
    }
    var directory := validated.value;
    if !fs.Exists(directory) {
      return Failure("Directory does not exist: " + directoryPath);
    }
    if !fs.IsDirectory(directory) {
      return Failure("Path is not a directory: " + directoryPath);
    }
    if !fs.CanRead(directory) {
      return Failure("Cannot read directory: " + directoryPath);
    }
    var entries := ListEntries(fs, directory, includeFiles);
    return Success(directory, entries);
  }
}
