/**
 * Organizador: moves the accepted files of a base directory into one folder
 * per initial letter under a destination directory (`dest/<letter>/<name>`),
 * letters compared ignoring case, and records every file's original and
 * destination paths.
 */
module OrganizadorModel {
  import opened Wrappers
  import opened JavaErrors
  import opened JavaStrings
  import opened Sorting
  import opened FileSystemModel
  import opened FilenameComparator
  import opened Extensoes
  import opened Filtro
  import opened ExtensaoFilters
  import opened DiretorioModel

  // Moving one file (FileUtils.moveFile)

  /** How FileUtils.moveFile ends: moved, refused because the target exists, or an IOException. */
  datatype MoveKind = MoveDone | DestinationExists | MoveError(message: string)

  function MoveKindOf(nodes: map<Path, Node>, src: Path, dst: Path): (k: MoveKind)
    ensures k == MoveDone ==> CanRename(nodes, src, dst) && dst !in nodes
    ensures k == DestinationExists <==> src in nodes && !nodes[src].isDir && dst in nodes
  {
    if src !in nodes then MoveError("Source does not exist")
    else if nodes[src].isDir then MoveError("Source is a directory")
    else if dst in nodes then DestinationExists
    else if CanRename(nodes, src, dst) then MoveDone
    else MoveError("Failed to move")
  }

  function MovedNodes(nodes: map<Path, Node>, src: Path, dst: Path): map<Path, Node> {
    if MoveKindOf(nodes, src, dst) == MoveDone then Renamed(nodes, src, dst) else nodes
  }

  /** Only a completed move changes the tree, and it keeps the tree valid. */
  lemma MovedNodesValid(nodes: map<Path, Node>, src: Path, dst: Path)
    requires ValidTree(nodes)
    ensures ValidTree(MovedNodes(nodes, src, dst))
    ensures MoveKindOf(nodes, src, dst) != MoveDone ==> MovedNodes(nodes, src, dst) == nodes
    ensures MoveKindOf(nodes, src, dst) == MoveDone ==>
              dst in MovedNodes(nodes, src, dst) && src !in MovedNodes(nodes, src, dst)
  {
    if MoveKindOf(nodes, src, dst) == MoveDone {
      RenamePreservesTree(nodes, src, dst);
    }
  }

  /** The file-level checks of moveFile, then the rename itself. */
  method MoveFile(fs: FileSystem, src: Path, dst: Path) returns (k: MoveKind)
    requires fs.Valid()
    modifies fs
    ensures fs.Valid()
    ensures k == MoveKindOf(old(fs.nodes), src, dst)
    ensures fs.nodes == MovedNodes(old(fs.nodes), src, dst)
  {
    if !fs.Exists(src) {
      return MoveError("Source does not exist");
    }
    if fs.IsDirectory(src) {
      return MoveError("Source is a directory");
    }
    if fs.Exists(dst) {
      return DestinationExists;
    }
    var ok := fs.RenameTo(src, dst);
    k := if ok then MoveDone else MoveError("Failed to move");
  }

  // Buckets by first letter (the TreeMap with CASE_INSENSITIVE_ORDER)

  /** A listed file: not the root, with a non-empty name. */
  predicate Named(p: Path) {
    p != [] && NameOf(p) != []
  }

  function FirstChar(p: Path): char
    requires Named(p)
  {
    NameOf(p)[0]
  }

  /** One TreeMap entry: the one-char key and the files put under it, in order. */
  datatype Bucket = Bucket(key: char, files: seq<Path>)

  /** Index of the bucket whose key equals c ignoring case, or -1. */
  function FindBucket(bs: seq<Bucket>, c: char): (k: int)
    ensures -1 <= k < |bs|
    ensures k >= 0 ==> LowerChar(bs[k].key) == LowerChar(c)
    ensures k < 0 ==> forall i | 0 <= i < |bs| :: LowerChar(bs[i].key) != LowerChar(c)
  {
    if bs == [] then -1
    else if LowerChar(bs[|bs| - 1].key) == LowerChar(c) then |bs| - 1
    else FindBucket(bs[..|bs| - 1], c)
  }

  /** Where TreeMap.put places a new key: after every key below it ignoring case. */
  function InsertPos(bs: seq<Bucket>, c: char): (k: nat)
    ensures k <= |bs|
    ensures forall i | 0 <= i < k :: LowerChar(bs[i].key) < LowerChar(c)
    ensures k < |bs| ==> LowerChar(bs[k].key) >= LowerChar(c)
  {
    if bs == [] then 0
    else if LowerChar(bs[0].key) < LowerChar(c) then 1 + InsertPos(bs[1..], c)
    else 0
  }

  /** The keys folded to lower case, in map order. */
  function LowerKeys(bs: seq<Bucket>): (ks: seq<char>)
    ensures |ks| == |bs| && forall i | 0 <= i < |bs| :: ks[i] == LowerChar(bs[i].key)
  {
    seq(|bs|, i requires 0 <= i < |bs| => LowerChar(bs[i].key))
  }

  ghost predicate Ascending(ks: seq<char>) {
    forall i, j | 0 <= i < j < |ks| :: ks[i] < ks[j]
  }

  ghost predicate KeysAscending(bs: seq<Bucket>) {
    Ascending(LowerKeys(bs))
  }

  /** Every file of a bucket has the bucket's initial ignoring case; the key is its first file's initial. */
  ghost predicate WellKeyed(b: Bucket) {
    && (forall p | p in b.files :: Named(p) && LowerChar(FirstChar(p)) == LowerChar(b.key))
    && b.files != [] && Named(b.files[0]) && b.key == FirstChar(b.files[0])
  }

  /** Keys strictly ascending ignoring case; every bucket well keyed. */
  ghost predicate ValidBuckets(bs: seq<Bucket>) {
    KeysAscending(bs) && forall i | 0 <= i < |bs| :: WellKeyed(bs[i])
  }

  /** q is in the list of some key. */
  predicate InBuckets(bs: seq<Bucket>, q: Path) {
    exists i | 0 <= i < |bs| :: q in bs[i].files
  }

  /**
   * One file through the first loop of execute: appended to the list of the
   * key equal to its first char ignoring case; with no such key, a new entry
   * keyed by that char is put in key order.
   */
  function AddToBuckets(bs: seq<Bucket>, p: Path): seq<Bucket>
    requires Named(p)
  {
    var c := FirstChar(p);
    var j := FindBucket(bs, c);
    if j >= 0 then bs[j := bs[j].(files := bs[j].files + [p])]
    else
      var k := InsertPos(bs, c);
      bs[..k] + [Bucket(c, [p])] + bs[k..]
  }

  /** The TreeMap after the first loop of execute. */
  function Bucketed(files: seq<Path>): seq<Bucket>
    requires forall i | 0 <= i < |files| :: Named(files[i])
  {
    if files == [] then []
    else AddToBuckets(Bucketed(files[..|files| - 1]), files[|files| - 1])
  }

  /** Appending to an existing key keeps the buckets valid and adds just p. */
  lemma AddToExistingBucket(bs: seq<Bucket>, p: Path)
    requires Named(p) && ValidBuckets(bs) && FindBucket(bs, FirstChar(p)) >= 0
    ensures ValidBuckets(AddToBuckets(bs, p))
    ensures forall q :: InBuckets(AddToBuckets(bs, p), q) <==> q == p || InBuckets(bs, q)
  {
    var j := FindBucket(bs, FirstChar(p));
    var r := AddToBuckets(bs, p);
    assert r[j].files[0] == bs[j].files[0];
    assert LowerKeys(r) == LowerKeys(bs);
    forall q ensures InBuckets(r, q) <==> q == p || InBuckets(bs, q) {
      AppendedMember(bs, j, p, q);
    }
  }

  /** Appending p to bucket j: q is in the new buckets iff it is p or was in the old ones. */
  lemma AppendedMember(bs: seq<Bucket>, j: nat, p: Path, q: Path)
    requires j < |bs|
    ensures var r := bs[j := bs[j].(files := bs[j].files + [p])];
      InBuckets(r, q) <==> q == p || InBuckets(bs, q)
  {
    var r := bs[j := bs[j].(files := bs[j].files + [p])];
    if InBuckets(bs, q) {
      var i :| 0 <= i < |bs| && q in bs[i].files;
      assert q in r[i].files;
    }
    if q == p {
      assert q in r[j].files;
    }
    if InBuckets(r, q) {
      var i :| 0 <= i < |r| && q in r[i].files;
      if i != j {
        assert q in bs[i].files;
      }
    }
  }

  /** Putting b at index k of bs: what sits where afterwards. */
  lemma InsertAt(bs: seq<Bucket>, k: nat, b: Bucket, i: int)
    requires k <= |bs| && 0 <= i <= |bs|
    ensures var r := bs[..k] + [b] + bs[k..];
      |r| == |bs| + 1 && r[i] == (if i < k then bs[i] else if i == k then b else bs[i - 1])
  {
  }

  /** A key put between the smaller and the larger ones keeps the order. */
  lemma InsertAscending(ks: seq<char>, k: nat, x: char)
    requires Ascending(ks) && k <= |ks|
    requires forall i | 0 <= i < k :: ks[i] < x
    requires forall i | k <= i < |ks| :: x < ks[i]
    ensures Ascending(ks[..k] + [x] + ks[k..])
  {
    var r := ks[..k] + [x] + ks[k..];
    forall i, j | 0 <= i < j < |r| ensures r[i] < r[j] {
      assert r[i] == (if i < k then ks[i] else if i == k then x else ks[i - 1]);
      assert r[j] == (if j < k then ks[j] else if j == k then x else ks[j - 1]);
    }
  }

  /** An absent key is below every key from its insertion point on. */
  lemma InsertPosBelow(bs: seq<Bucket>, c: char)
    requires KeysAscending(bs) && FindBucket(bs, c) < 0
    ensures forall i | InsertPos(bs, c) <= i < |bs| :: LowerChar(c) < LowerKeys(bs)[i]
  {
    var ks := LowerKeys(bs);
    BelowFrom(ks, InsertPos(bs, c), LowerChar(c));
  }

  /** In ascending keys, a key absent from them and not above the k-th is below every key from k on. */
  lemma BelowFrom(ks: seq<char>, k: nat, x: char)
    requires Ascending(ks) && k <= |ks|
    requires k < |ks| ==> x <= ks[k]
    requires forall i | 0 <= i < |ks| :: ks[i] != x
    ensures forall i | k <= i < |ks| :: x < ks[i]
  {
    forall i | k <= i < |ks| ensures x < ks[i] {
      if i > k {
        assert ks[k] < ks[i];
      }
    }
  }

  /** The folded keys after an insertion are the old ones with the new key inserted. */
  lemma LowerKeysInsert(bs: seq<Bucket>, k: nat, b: Bucket)
    requires k <= |bs|
    ensures LowerKeys(bs[..k] + [b] + bs[k..]) == LowerKeys(bs)[..k] + [LowerChar(b.key)] + LowerKeys(bs)[k..]
  {
    var r := bs[..k] + [b] + bs[k..];
    var ks := LowerKeys(bs);
    forall i | 0 <= i < |r| ensures LowerKeys(r)[i] == (ks[..k] + [LowerChar(b.key)] + ks[k..])[i] {
      InsertAt(bs, k, b, i);
    }
  }

  /** A new key keeps the keys ascending. */
  lemma AddNewBucketAscending(bs: seq<Bucket>, p: Path)
    requires Named(p) && KeysAscending(bs) && FindBucket(bs, FirstChar(p)) < 0
    ensures KeysAscending(AddToBuckets(bs, p))
  {
    var c := FirstChar(p);
    InsertPosBelow(bs, c);
    InsertAscending(LowerKeys(bs), InsertPos(bs, c), LowerChar(c));
    LowerKeysInsert(bs, InsertPos(bs, c), Bucket(c, [p]));
  }

  /** A new key adds just p, in a well-keyed bucket of its own. */
  lemma AddNewBucketFiles(bs: seq<Bucket>, p: Path)
    requires Named(p) && (forall i | 0 <= i < |bs| :: WellKeyed(bs[i])) && FindBucket(bs, FirstChar(p)) < 0
    ensures forall i | 0 <= i < |AddToBuckets(bs, p)| :: WellKeyed(AddToBuckets(bs, p)[i])
    ensures forall q :: InBuckets(AddToBuckets(bs, p), q) <==> q == p || InBuckets(bs, q)
  {
    var c := FirstChar(p);
    var k := InsertPos(bs, c);
    var b := Bucket(c, [p]);
    assert AddToBuckets(bs, p) == bs[..k] + [b] + bs[k..];
    assert WellKeyed(b);
    InsertedWellKeyed(bs, k, b);
    forall q ensures InBuckets(bs[..k] + [b] + bs[k..], q) <==> q == p || InBuckets(bs, q) {
      InsertedMember(bs, k, b, q);
    }
  }

  /** Inserting a well-keyed bucket among well-keyed ones. */
  lemma InsertedWellKeyed(bs: seq<Bucket>, k: nat, b: Bucket)
    requires k <= |bs| && WellKeyed(b) && forall i | 0 <= i < |bs| :: WellKeyed(bs[i])
    ensures var r := bs[..k] + [b] + bs[k..];
      forall i | 0 <= i < |r| :: WellKeyed(r[i])
  {
    var r := bs[..k] + [b] + bs[k..];
    forall i | 0 <= i < |r| ensures WellKeyed(r[i]) {
      InsertAt(bs, k, b, i);
    }
  }

  /** After inserting bucket b, q is in the buckets iff it is in b or was in them before. */
  lemma InsertedMember(bs: seq<Bucket>, k: nat, b: Bucket, q: Path)
    requires k <= |bs|
    ensures InBuckets(bs[..k] + [b] + bs[k..], q) <==> q in b.files || InBuckets(bs, q)
  {
    var r := bs[..k] + [b] + bs[k..];
    if InBuckets(bs, q) {
      var i :| 0 <= i < |bs| && q in bs[i].files;
      var j := if i < k then i else i + 1;
      InsertAt(bs, k, b, j);
      assert q in r[j].files;
    }
    if q in b.files {
      InsertAt(bs, k, b, k);
      assert q in r[k].files;
    }
    if InBuckets(r, q) {
      var i :| 0 <= i < |r| && q in r[i].files;
      InsertAt(bs, k, b, i);
    }
  }

  /**
   * The buckets of a listing: keys ascending and distinct ignoring case,
   * each bucket named by the first letter of its first file, every file of
   * the listing in the bucket of its own first letter, and nothing else in
   * any bucket.
   */
  lemma {:induction false} BucketedShape(files: seq<Path>)
    requires forall i | 0 <= i < |files| :: Named(files[i])
    ensures ValidBuckets(Bucketed(files))
    ensures forall q :: InBuckets(Bucketed(files), q) <==> q in files
  {
    if files != [] {
      var init := files[..|files| - 1];
      var p := files[|files| - 1];
      BucketedShape(init);
      AddToBucketsShape(Bucketed(init), p);
      assert forall q :: q in files <==> q == p || q in init by {
        assert files == init + [p];
      }
    }
  }

  /** One file added to valid buckets keeps them valid and adds just that file. */
  lemma AddToBucketsShape(bs: seq<Bucket>, p: Path)
    requires Named(p) && ValidBuckets(bs)
    ensures ValidBuckets(AddToBuckets(bs, p))
    ensures forall q :: InBuckets(AddToBuckets(bs, p), q) <==> q == p || InBuckets(bs, q)
  {
    if FindBucket(bs, FirstChar(p)) >= 0 {
      AddToExistingBucket(bs, p);
    } else {
      AddNewBucketAscending(bs, p);
      AddNewBucketFiles(bs, p);
    }
  }

  /** A file of the listing sits in one bucket only, the one of its first letter. */
  lemma BucketOfFile(files: seq<Path>, p: Path, i: int, j: int)
    requires forall m | 0 <= m < |files| :: Named(files[m])
    requires 0 <= i < |Bucketed(files)| && 0 <= j < |Bucketed(files)|
    requires p in Bucketed(files)[i].files && p in Bucketed(files)[j].files
    ensures i == j
    ensures Named(p) && LowerChar(Bucketed(files)[i].key) == LowerChar(FirstChar(p))
  {
    BucketedShape(files);
  }

  /** put(firstChar, new ArrayList()) followed by get(firstChar).add(file) is AddToBuckets. */
  lemma PutThenAdd(bs: seq<Bucket>, p: Path)
    requires Named(p) && FindBucket(bs, FirstChar(p)) < 0
    ensures var k := InsertPos(bs, FirstChar(p));
      var put := bs[..k] + [Bucket(FirstChar(p), [])] + bs[k..];
      k < |put| && put[k := put[k].(files := put[k].files + [p])] == AddToBuckets(bs, p)
  {
    var c := FirstChar(p);
    var k := InsertPos(bs, c);
    var put := bs[..k] + [Bucket(c, [])] + bs[k..];
    var r := put[k := put[k].(files := put[k].files + [p])];
    var want := bs[..k] + [Bucket(c, [p])] + bs[k..];
    forall i | 0 <= i < |r| ensures r[i] == want[i] {
      InsertAt(bs, k, Bucket(c, []), i);
      InsertAt(bs, k, Bucket(c, [p]), i);
    }
    assert r == want;
  }

  /** The first loop of execute: the listing mapped by first letter. */
  method MapByFirstChar(files: seq<Path>) returns (buckets: seq<Bucket>)
    requires forall i | 0 <= i < |files| :: Named(files[i])
    ensures buckets == Bucketed(files)
  {
    buckets := [];
    for n := 0 to |files|
      invariant buckets == Bucketed(files[..n])
    {
      ghost var before := buckets;
      var file := files[n];
      var firstChar := NameOf(file)[0];
      var j := FindBucket(buckets, firstChar);
      if j < 0 {
        PutThenAdd(buckets, file);
        j := InsertPos(buckets, firstChar);
        buckets := buckets[..j] + [Bucket(firstChar, [])] + buckets[j..];
      }
      buckets := buckets[j := buckets[j].(files := buckets[j].files + [file])];
      assert buckets == AddToBuckets(before, file);
      assert files[..n + 1] == files[..n] + [file];
    }
    assert files[..|files|] == files;
  }

  // The moves

  /** What execute has done so far: the tree, the movedFiles map, and the exception that stopped it. */
  datatype OrgState = OrgState(nodes: map<Path, Node>, moved: map<Path, Path>, error: Option<Exception>)

  /** dest + separator + key. */
  function OrganizedDir(dest: Path, key: char): Path {
    Resolve(dest, [key])
  }

  /** The bucket of names starting with '.' is dest itself: dest + "/." names dest. */
  lemma DotBucketIsDestination(dest: Path)
    ensures OrganizedDir(dest, '.') == dest
  {
    FileSystemModel.SplitAllNoSeparator(".");
    assert NonEmpty(["."]) == NonEmpty([]);
  }

  /** Any other initial names a new child folder of dest. */
  lemma OtherBucketIsChild(dest: Path, key: char)
    requires key != '.' && key != '/'
    ensures OrganizedDir(dest, key) == dest + [[key]]
  {
    ComponentsOfValidName([key]);
  }

  /** organizedDir + separator + originalFile.getName(). */
  function Destination(dir: Path, p: Path): Path {
    Resolve(dir, FileName(p))
  }

  /**
   * One file: an IOException other than FileExistsException stops the run;
   * otherwise the file is recorded, moved or not.
   */
  function MoveStep(st: OrgState, dir: Path, p: Path): OrgState {
    if st.error.Some? then st
    else
      var dst := Destination(dir, p);
      match MoveKindOf(st.nodes, p, dst)
      case MoveError(m) => st.(error := Some(FileManager(m)))
      case _ => OrgState(MovedNodes(st.nodes, p, dst), st.moved[p := dst], None)
  }

  function MoveAll(st: OrgState, dir: Path, files: seq<Path>): OrgState {
    if files == [] then st
    else MoveStep(MoveAll(st, dir, files[..|files| - 1]), dir, files[|files| - 1])
  }

  /** mkdirs when the folder is missing (a failure is ignored, as in execute). */
  function MakeFolder(nodes: map<Path, Node>, d: Path): map<Path, Node> {
    if CanMakeDirectory(nodes, d) then nodes[d := NewDirectory] else nodes
  }

  function BucketEffect(st: OrgState, dest: Path, b: Bucket): OrgState {
    if st.error.Some? then st
    else
      var dir := OrganizedDir(dest, b.key);
      MoveAll(st.(nodes := MakeFolder(st.nodes, dir)), dir, b.files)
  }

  /** The second loop of execute: every bucket in key order. */
  function Organized(st: OrgState, dest: Path, bs: seq<Bucket>): OrgState {
    if bs == [] then st
    else BucketEffect(Organized(st, dest, bs[..|bs| - 1]), dest, bs[|bs| - 1])
  }

  /** Once an exception is raised nothing more happens. */
  lemma {:induction false} MoveAllAfterError(st: OrgState, dir: Path, files: seq<Path>)
    requires st.error.Some?
    ensures MoveAll(st, dir, files) == st
  {
    if files != [] {
      MoveAllAfterError(st, dir, files[..|files| - 1]);
    }
  }

  lemma {:induction false} OrganizedAfterError(st: OrgState, dest: Path, bs: seq<Bucket>)
    requires st.error.Some?
    ensures Organized(st, dest, bs) == st
  {
    if bs != [] {
      OrganizedAfterError(st, dest, bs[..|bs| - 1]);
    }
  }

  /** A stopped prefix decides the whole run. */
  lemma {:induction false} OrganizedStopsAt(st: OrgState, dest: Path, bs: seq<Bucket>, n: nat)
    requires n <= |bs|
    requires Organized(st, dest, bs[..n]).error.Some?
    ensures Organized(st, dest, bs) == Organized(st, dest, bs[..n])
    decreases |bs| - n
  {
    if n < |bs| {
      assert bs[..n + 1][..n] == bs[..n];
      OrganizedStopsAt(st, dest, bs, n + 1);
    } else {
      assert bs[..n] == bs;
    }
  }

  /**
   * Without an exception, a bucket's files are all recorded, each with its
   * destination in the bucket's folder, the rest of the map untouched.
   */
  lemma {:induction false} MoveAllRecords(st: OrgState, dir: Path, files: seq<Path>)
    requires MoveAll(st, dir, files).error.None?
    ensures var r := MoveAll(st, dir, files);
      && (forall q :: q in r.moved <==> q in st.moved || q in files)
      && (forall q | q in files :: r.moved[q] == Destination(dir, q))
      && (forall q | q in st.moved && q !in files :: r.moved[q] == st.moved[q])
  {
    if files != [] {
      var init, last := files[..|files| - 1], files[|files| - 1];
      var s := MoveAll(st, dir, init);
      MoveStepRecords(s, dir, last);
      MoveAllRecords(st, dir, init);
      LastMember(files);
    }
  }

  lemma LastMember(files: seq<Path>)
    requires files != []
    ensures forall q :: q in files <==> q in files[..|files| - 1] || q == files[|files| - 1]
  {
    assert files == files[..|files| - 1] + [files[|files| - 1]];
  }

  /** A step without an exception follows a run without one and records its file. */
  lemma MoveStepRecords(s: OrgState, dir: Path, p: Path)
    requires MoveStep(s, dir, p).error.None?
    ensures s.error.None?
    ensures MoveStep(s, dir, p).moved == s.moved[p := Destination(dir, p)]
  {
  }

  /** Every step keeps the tree valid. */
  lemma {:induction false} MoveAllValid(st: OrgState, dir: Path, files: seq<Path>)
    requires ValidTree(st.nodes)
    ensures ValidTree(MoveAll(st, dir, files).nodes)
  {
    if files != [] {
      var init := files[..|files| - 1];
      MoveAllValid(st, dir, init);
      var s := MoveAll(st, dir, init);
      MovedNodesValid(s.nodes, files[|files| - 1], Destination(dir, files[|files| - 1]));
    }
  }

  lemma MakeFolderValid(nodes: map<Path, Node>, d: Path)
    requires ValidTree(nodes)
    ensures ValidTree(MakeFolder(nodes, d))
  {
    if CanMakeDirectory(nodes, d) {
      MakeDirectoryPreservesTree(nodes, d);
    }
  }

  lemma {:induction false} OrganizedValid(st: OrgState, dest: Path, bs: seq<Bucket>)
    requires ValidTree(st.nodes)
    ensures ValidTree(Organized(st, dest, bs).nodes)
  {
    if bs != [] {
      OrganizedValid(st, dest, bs[..|bs| - 1]);
      var s := Organized(st, dest, bs[..|bs| - 1]);
      if s.error.None? {
        var dir := OrganizedDir(dest, bs[|bs| - 1].key);
        MakeFolderValid(s.nodes, dir);
        MoveAllValid(s.(nodes := MakeFolder(s.nodes, dir)), dir, bs[|bs| - 1].files);
      }
    }
  }

  /** Without an exception, the recorded files are the files of the buckets. */
  lemma {:induction false} OrganizedRecordsKeys(st: OrgState, dest: Path, bs: seq<Bucket>)
    requires Organized(st, dest, bs).error.None?
    ensures forall q :: q in Organized(st, dest, bs).moved <==> q in st.moved || InBuckets(bs, q)
  {
    if bs != [] {
      var init := bs[..|bs| - 1];
      var last := bs[|bs| - 1];
      var s := Organized(st, dest, init);
      OrganizedRecordsKeys(st, dest, init);
      var dir := OrganizedDir(dest, last.key);
      MoveAllRecords(s.(nodes := MakeFolder(s.nodes, dir)), dir, last.files);
      forall q ensures InBuckets(bs, q) <==> InBuckets(init, q) || q in last.files {
        if InBuckets(init, q) {
          var i :| 0 <= i < |init| && q in init[i].files;
          assert q in bs[i].files;
        }
        if InBuckets(bs, q) {
          var i :| 0 <= i < |bs| && q in bs[i].files;
          if i < |bs| - 1 {
            assert q in init[i].files;
          }
        }
      }
    }
  }

  /** No file of b is in a. */
  predicate Disjoint(a: Bucket, b: Bucket) {
    forall q | q in b.files :: q !in a.files
  }

  ghost predicate BucketsDisjoint(bs: seq<Bucket>) {
    forall i, j | 0 <= i < j < |bs| :: Disjoint(bs[i], bs[j])
  }

  /** Every file of b is recorded as original -> dest/<key>/<name>. */
  predicate RecordedIn(moved: map<Path, Path>, dest: Path, b: Bucket) {
    forall q | q in b.files :: q in moved && moved[q] == Destination(OrganizedDir(dest, b.key), q)
  }

  /** Recording the files of another bucket leaves a bucket's records alone. */
  lemma RecordedKept(before: map<Path, Path>, after: map<Path, Path>, dest: Path, b: Bucket, other: Bucket)
    requires RecordedIn(before, dest, b) && Disjoint(b, other)
    requires forall q | q in before && q !in other.files :: q in after && after[q] == before[q]
    ensures RecordedIn(after, dest, b)
  {
  }

  /**
   * Without an exception every file of every bucket is recorded as
   * original -> dest/<key>/<name>, whether or not it was moved.
   */
  lemma {:induction false} OrganizedRecordsTargets(st: OrgState, dest: Path, bs: seq<Bucket>)
    requires Organized(st, dest, bs).error.None?
    requires BucketsDisjoint(bs)
    ensures forall i | 0 <= i < |bs| :: RecordedIn(Organized(st, dest, bs).moved, dest, bs[i])
  {
    if bs != [] {
      var init := bs[..|bs| - 1];
      var last := bs[|bs| - 1];
      var s := Organized(st, dest, init);
      assert BucketsDisjoint(init) by {
        forall i, j | 0 <= i < j < |init| ensures Disjoint(init[i], init[j]) {
          assert init[i] == bs[i] && init[j] == bs[j];
        }
      }
      OrganizedRecordsTargets(st, dest, init);
      var dir := OrganizedDir(dest, last.key);
      MoveAllRecords(s.(nodes := MakeFolder(s.nodes, dir)), dir, last.files);
      var after := Organized(st, dest, bs).moved;
      forall i | 0 <= i < |bs| ensures RecordedIn(after, dest, bs[i]) {
        if i < |bs| - 1 {
          assert init[i] == bs[i];
          assert Disjoint(bs[i], bs[|bs| - 1]);
          RecordedKept(s.moved, after, dest, bs[i], last);
        }
      }
    }
  }

  /** The buckets of a listing never share a file. */
  lemma BucketedDisjoint(files: seq<Path>)
    requires forall i | 0 <= i < |files| :: Named(files[i])
    ensures BucketsDisjoint(Bucketed(files))
  {
    var bs := Bucketed(files);
    BucketedShape(files);
    forall i, j | 0 <= i < j < |bs| ensures Disjoint(bs[i], bs[j]) {
      forall q | q in bs[j].files ensures q !in bs[i].files {
        assert WellKeyed(bs[i]) && WellKeyed(bs[j]);
        assert LowerKeys(bs)[i] < LowerKeys(bs)[j];
      }
    }
  }

  /**
   * A run that ends without an exception records every listed file and
   * nothing else, as original -> dest/<key>/<name>, where the key is the
   * first char of the first listed file with the same initial ignoring case.
   */
  lemma ListingRecorded(nodes: map<Path, Node>, dest: Path, files: seq<Path>)
    requires forall i | 0 <= i < |files| :: Named(files[i])
    requires Organized(OrgState(nodes, map[], None), dest, Bucketed(files)).error.None?
    ensures var bs := Bucketed(files);
      var r := Organized(OrgState(nodes, map[], None), dest, bs);
      && (forall q :: q in r.moved <==> q in files)
      && (forall q | q in files :: exists i | 0 <= i < |bs| ::
            && q in bs[i].files && Named(q) && LowerChar(bs[i].key) == LowerChar(FirstChar(q))
            && bs[i].files != [] && Named(bs[i].files[0]) && bs[i].key == FirstChar(bs[i].files[0])
            && q in r.moved && r.moved[q] == Destination(OrganizedDir(dest, bs[i].key), q))
  {
    var st := OrgState(nodes, map[], None);
    var bs := Bucketed(files);
    BucketedShape(files);
    BucketedDisjoint(files);
    OrganizedRecordsKeys(st, dest, bs);
    OrganizedRecordsTargets(st, dest, bs);
    forall q | q in files ensures exists i | 0 <= i < |bs| ::
        && q in bs[i].files && Named(q) && LowerChar(bs[i].key) == LowerChar(FirstChar(q))
        && bs[i].files != [] && Named(bs[i].files[0]) && bs[i].key == FirstChar(bs[i].files[0])
        && q in Organized(st, dest, bs).moved
        && Organized(st, dest, bs).moved[q] == Destination(OrganizedDir(dest, bs[i].key), q) {
      assert InBuckets(bs, q);
      var i :| 0 <= i < |bs| && q in bs[i].files;
      assert WellKeyed(bs[i]) && RecordedIn(Organized(st, dest, bs).moved, dest, bs[i]);
    }
  }

  // execute

  /** Moves one bucket: creates its folder if missing, then moves its files in order. */
  method MoveBucket(fs: FileSystem, dest: Path, b: Bucket, moved: map<Path, Path>)
    returns (movedAfter: map<Path, Path>, error: Option<Exception>)
    requires fs.Valid()
    modifies fs
    ensures fs.Valid()
    ensures OrgState(fs.nodes, movedAfter, error) == BucketEffect(OrgState(old(fs.nodes), moved, None), dest, b)
  {
    var organizedDir := OrganizedDir(dest, b.key);
    if !fs.Exists(organizedDir) {
      var _ := fs.MakeDirectory(organizedDir);
    }
    movedAfter, error := MoveFiles(fs, organizedDir, b.files, moved);
  }

  /** The inner loop of execute: the bucket's files in order, stopping at the first exception. */
  method MoveFiles(fs: FileSystem, organizedDir: Path, files: seq<Path>, moved: map<Path, Path>)
    returns (movedAfter: map<Path, Path>, error: Option<Exception>)
    requires fs.Valid()
    modifies fs
    ensures fs.Valid()
    ensures OrgState(fs.nodes, movedAfter, error) == MoveAll(OrgState(old(fs.nodes), moved, None), organizedDir, files)
  {
    ghost var st1 := OrgState(fs.nodes, moved, None);
    movedAfter, error := moved, None;
    for n := 0 to |files|
      invariant fs.Valid()
      invariant OrgState(fs.nodes, movedAfter, error) == MoveAll(st1, organizedDir, files[..n])
      invariant error.None?
    {
      MoveAllSnoc(st1, organizedDir, files, n);
      var originalFile := files[n];
      var destFile := Destination(organizedDir, originalFile);
      var k := MoveFile(fs, originalFile, destFile);
      if k.MoveError? {
        error := Some(FileManager(k.message));
        MoveAllStopsAt(st1, organizedDir, files, n + 1);
        return;
      }
      movedAfter := movedAfter[originalFile := destFile];
    }
    assert files[..|files|] == files;
  }

  /** One more file through the inner loop. */
  lemma MoveAllSnoc(st: OrgState, dir: Path, files: seq<Path>, n: nat)
    requires n < |files|
    ensures MoveAll(st, dir, files[..n + 1]) == MoveStep(MoveAll(st, dir, files[..n]), dir, files[n])
  {
    assert files[..n + 1][..n] == files[..n];
  }

  lemma {:induction false} MoveAllStopsAt(st: OrgState, dir: Path, files: seq<Path>, n: nat)
    requires n <= |files| && MoveAll(st, dir, files[..n]).error.Some?
    ensures MoveAll(st, dir, files) == MoveAll(st, dir, files[..n])
    decreases |files| - n
  {
    if n < |files| {
      assert files[..n + 1][..n] == files[..n];
      MoveAllStopsAt(st, dir, files, n + 1);
    } else {
      assert files[..n] == files;
    }
  }

  /** The extensions and the directory flag of the filter execute uses. */
  function EffectiveExtensions(filter: Option<FiltroExtensoes>, text: Extensao -> string): seq<string>
    reads if filter.Some? then {filter.value} else {}
  {
    if filter.Some? then filter.value.extensionsAccepted else AsStrings(text)
  }

  function EffectiveAcceptDirectories(filter: Option<FiltroExtensoes>): bool
    reads if filter.Some? then {filter.value} else {}
  {
    filter.Some? && filter.value.acceptDirectories
  }

  /** The files of d the filter accepts, and only those, are in the listing, each once. */
  ghost predicate ListingOf(nodes: map<Path, Node>, extensions: seq<string>, acceptDirectories: bool, d: Path,
                            listing: seq<Path>) {
    && (forall x :: x in listing <==> ListedBy(nodes, extensions, acceptDirectories, d, x))
    && Distinct(listing)
  }

  /** listarConteudo with the given filter, or the all-extensions filter when none is given. */
  method ListContent(fs: FileSystem, dirBase: Diretorio, filter: Option<FiltroExtensoes>, text: Extensao -> string)
    returns (conteudo: seq<Path>)
    requires fs.Valid()
    ensures conteudo == AcceptedListing(fs.lister, fs.nodes, EffectiveExtensions(filter, text),
                                        EffectiveAcceptDirectories(filter), dirBase.path)
    ensures SortedBy(conteudo, NameLe)
    ensures ListingOf(fs.nodes, EffectiveExtensions(filter, text), EffectiveAcceptDirectories(filter), dirBase.path, conteudo)
    ensures forall i | 0 <= i < |conteudo| :: Named(conteudo[i])
  {
    var filtro := ChosenFilter(filter, text);
    conteudo := dirBase.ListarConteudo(fs, filtro);
    ListedNamed(fs.nodes, filtro.extensionsAccepted, filtro.acceptDirectories, dirBase.path, conteudo);
  }

  /** The given filter, or a new all-extensions filter that rejects directories. */
  method ChosenFilter(filter: Option<FiltroExtensoes>, text: Extensao -> string) returns (filtro: FiltroExtensoes)
    ensures filtro.extensionsAccepted == EffectiveExtensions(filter, text)
    ensures filtro.acceptDirectories == EffectiveAcceptDirectories(filter)
    ensures filter.Some? ==> filtro == filter.value
  {
    if filter.Some? {
      filtro := filter.value;
    } else {
      filtro := AllAcceptedFilter(text);
    }
  }

  /** Every entry of a listing has a non-empty name. */
  lemma ListedNamed(nodes: map<Path, Node>, exts: seq<string>, flag: bool, d: Path, listing: seq<Path>)
    requires ValidTree(nodes)
    requires forall x :: x in listing <==> ListedBy(nodes, exts, flag, d, x)
    ensures forall i | 0 <= i < |listing| :: Named(listing[i])
  {
    forall i | 0 <= i < |listing| ensures Named(listing[i]) {
      assert listing[i] in listing;
      assert WellPlaced(nodes, listing[i]);
    }
  }

  /** The second loop of execute: every bucket in key order, stopping at the first exception. */
  method MoveBuckets(fs: FileSystem, dest: Path, mappedFiles: seq<Bucket>)
    returns (r: Result<map<Path, Path>, Exception>)
    requires fs.Valid()
    modifies fs
    ensures fs.Valid()
    ensures var st := Organized(OrgState(old(fs.nodes), map[], None), dest, mappedFiles);
      && fs.nodes == st.nodes
      && r == (if st.error.Some? then Err(st.error.value) else Ok(st.moved))
  {
    ghost var st0 := OrgState(fs.nodes, map[], None);
    var moved: map<Path, Path> := map[];
    for n := 0 to |mappedFiles|
      invariant fs.Valid()
      invariant OrgState(fs.nodes, moved, None) == Organized(st0, dest, mappedFiles[..n])
    {
      OrganizedSnoc(st0, dest, mappedFiles, n);
      var error;
      moved, error := MoveBucket(fs, dest, mappedFiles[n], moved);
      if error.Some? {
        OrganizedStopsAt(st0, dest, mappedFiles, n + 1);
        return Err(error.value);
      }
    }
    assert mappedFiles[..|mappedFiles|] == mappedFiles;
    return Ok(moved);
  }

  /** One more bucket through the second loop. */
  lemma OrganizedSnoc(st: OrgState, dest: Path, bs: seq<Bucket>, n: nat)
    requires n < |bs|
    ensures Organized(st, dest, bs[..n + 1]) == BucketEffect(Organized(st, dest, bs[..n]), dest, bs[n])
  {
    assert bs[..n + 1][..n] == bs[..n];
  }

  /**
   * execute: the accepted children of the base directory (the all-extensions
   * filter when none is given), bucketed by first letter, moved bucket by
   * bucket into dest/<key>; the result is movedFiles, or the
   * FileManagerException that stopped the run (moves done before it stay
   * done).  `listing` is what listarConteudo returned.
   */
  method Execute(fs: FileSystem, dirBase: Diretorio, dirDest: Diretorio, filter: Option<FiltroExtensoes>,
                 text: Extensao -> string)
    returns (r: Result<map<Path, Path>, Exception>, ghost listing: seq<Path>)
    requires fs.Valid()
    modifies fs
    ensures fs.Valid()
    ensures listing == AcceptedListing(fs.lister, old(fs.nodes), old(EffectiveExtensions(filter, text)),
                                       old(EffectiveAcceptDirectories(filter)), dirBase.path)
    ensures SortedBy(listing, NameLe)
    ensures ListingOf(old(fs.nodes), old(EffectiveExtensions(filter, text)), old(EffectiveAcceptDirectories(filter)),
                      dirBase.path, listing)
    ensures forall i | 0 <= i < |listing| :: Named(listing[i])
    ensures var st := Organized(OrgState(old(fs.nodes), map[], None), dirDest.path, Bucketed(listing));
      && fs.nodes == st.nodes
      && r == (if st.error.Some? then Err(st.error.value) else Ok(st.moved))
  {
    var conteudo := ListContent(fs, dirBase, filter, text);
    listing := conteudo;
    var mappedFiles := MapByFirstChar(conteudo);
    r := MoveBuckets(fs, dirDest.path, mappedFiles);
  }
}
