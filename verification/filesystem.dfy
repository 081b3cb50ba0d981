/**
 * The part of the host filesystem that java.io.File exposes to the file
 * manager: a tree of named nodes, each a directory or a file with attributes,
 * audio files carrying an embedded tag.  A path is the sequence of its
 * components ([] is the root); `new File(dir + File.separator + name)` is
 * Resolve(dir, name).  Renaming follows POSIX rename(2), which File.renameTo
 * uses on Unix.
 */
module FileSystemModel {
  import opened Wrappers
  import opened JavaStrings

  type Path = seq<string>

  /** Deepest path the filesystem accepts (ENAMETOOLONG beyond it). */
  const MaxDepth: nat := 1024

  /** The audio tag fields the renamer reads and writes; "" stands for an absent field. */
  datatype Tag = Tag(artist: string, title: string, albumArtist: string, album: string,
                     genre: string, year: string, track: string)

  /** What AudioFile.createDefaultTag gives: every field empty. */
  const EmptyTag := Tag("", "", "", "", "", "", "")

  /** NotAudio: the tag library cannot read the file at all. */
  datatype Content = NotAudio | Untagged | Tagged(tag: Tag)

  datatype Node = Node(isDir: bool, readable: bool, writable: bool, length: nat,
                       lastModified: int, content: Content)

  function Parent(p: Path): Path
    requires p != []
  {
    p[..|p| - 1]
  }

  function NameOf(p: Path): string
    requires p != []
  {
    p[|p| - 1]
  }

  /** d is p or an ancestor of p. */
  predicate Under(d: Path, p: Path) {
    |d| <= |p| && p[..|d|] == d
  }

  lemma UnderTransitive(a: Path, b: Path, c: Path)
    requires Under(a, b) && Under(b, c)
    ensures Under(a, c)
  {
    assert c[..|b|][..|a|] == c[..|a|];
  }

  /** A name a directory entry can have; "." always means the directory itself. */
  predicate ValidName(n: string) {
    n != [] && '/' !in n && n != "."
  }

  /**
   * Path components of a name written after a separator: File drops empty
   * components, and the system resolves a "." component to the directory it
   * is in.
   */
  function Components(name: string): (r: Path)
    ensures forall i | 0 <= i < |r| :: ValidName(r[i])
  {
    NonEmpty(SplitAll(name, '/'))
  }

  function NonEmpty(parts: seq<string>): (r: seq<string>)
    requires forall i | 0 <= i < |parts| :: '/' !in parts[i]
    ensures forall i | 0 <= i < |r| :: ValidName(r[i])
  {
    if parts == [] then []
    else if parts[0] == [] || parts[0] == "." then NonEmpty(parts[1..])
    else [parts[0]] + NonEmpty(parts[1..])
  }

  lemma ComponentsOfValidName(n: string)
    requires ValidName(n)
    ensures Components(n) == [n]
  {
    SplitAllNoSeparator(n);
    assert NonEmpty([n]) == [n] + NonEmpty([]);
  }

  lemma {:induction false} SplitAllNoSeparator(n: string)
    requires '/' !in n
    ensures SplitAll(n, '/') == [n]
  {
    if n != [] {
      SplitAllNoSeparator(n[1..]);
      assert n == [n[0]] + n[1..];
    }
  }

  /** new File(dir.getPath() + File.separator + name). */
  function Resolve(dir: Path, name: string): (r: Path)
    ensures Under(dir, r)
  {
    dir + Components(name)
  }

  /** Unix File.isHidden: the name starts with a dot. */
  predicate IsHiddenName(p: Path) {
    p != [] && StartsWith(NameOf(p), ".")
  }

  ghost predicate WellPlaced(nodes: map<Path, Node>, p: Path)
    requires p != []
  {
    && |p| <= MaxDepth
    && ValidName(NameOf(p))
    && Parent(p) in nodes && nodes[Parent(p)].isDir
  }

  /** The root is a directory; every other node sits, validly named, in a directory. */
  ghost predicate ValidTree(nodes: map<Path, Node>) {
    && [] in nodes && nodes[[]].isDir
    && forall p | p in nodes && p != [] :: WellPlaced(nodes, p)
  }

  /** Nothing lies below a file. */
  lemma {:induction false} NothingBelowFile(nodes: map<Path, Node>, f: Path, q: Path)
    requires ValidTree(nodes) && f in nodes && !nodes[f].isDir
    requires Under(f, q) && q != f
    ensures q !in nodes
    decreases |q|
  {
    if q in nodes {
      assert q != [];
      assert WellPlaced(nodes, q);
      if Parent(q) != f {
        assert Under(f, Parent(q));
        NothingBelowFile(nodes, f, Parent(q));
      }
    }
  }

  /**
   * When rename(2) moves file src to dst: both directories involved must be
   * writable (EACCES otherwise), and dst must not name a directory.
   */
  predicate CanRename(nodes: map<Path, Node>, src: Path, dst: Path) {
    && src in nodes && src != [] && !nodes[src].isDir
    && Parent(src) in nodes && nodes[Parent(src)].writable
    && dst != [] && |dst| <= MaxDepth && ValidName(NameOf(dst))
    && Parent(dst) in nodes && nodes[Parent(dst)].isDir && nodes[Parent(dst)].writable
    && !(dst in nodes && nodes[dst].isDir)
  }

  /** When mkdir(2) creates directory p: it is missing and its parent is a writable directory. */
  predicate CanMakeDirectory(nodes: map<Path, Node>, p: Path) {
    && p !in nodes && p != [] && |p| <= MaxDepth && ValidName(NameOf(p))
    && Parent(p) in nodes && nodes[Parent(p)].isDir && nodes[Parent(p)].writable
  }

  /** A new directory is empty, readable and writable. */
  const NewDirectory := Node(true, true, true, 0, 0, NotAudio)

  lemma MakeDirectoryPreservesTree(nodes: map<Path, Node>, p: Path)
    requires ValidTree(nodes) && CanMakeDirectory(nodes, p)
    ensures ValidTree(nodes[p := NewDirectory])
  {
    var m := nodes[p := NewDirectory];
    forall q | q in m && q != [] ensures WellPlaced(m, q) {
      if q != p {
        assert WellPlaced(nodes, q);
      }
    }
  }

  function Renamed(nodes: map<Path, Node>, src: Path, dst: Path): map<Path, Node>
    requires src in nodes
  {
    (nodes - {src})[dst := nodes[src]]
  }

  lemma RenamePreservesTree(nodes: map<Path, Node>, src: Path, dst: Path)
    requires ValidTree(nodes) && CanRename(nodes, src, dst)
    ensures ValidTree(Renamed(nodes, src, dst))
  {
    var m := Renamed(nodes, src, dst);
    forall p | p in m && p != [] ensures WellPlaced(m, p) {
      if p != dst {
        assert WellPlaced(nodes, p);
        assert Parent(p) != src;
      }
    }
  }

  /** A tag can be written into an existing, writable file. */
  predicate CanCommit(nodes: map<Path, Node>, p: Path) {
    p in nodes && !nodes[p].isDir && nodes[p].writable
  }

  function Committed(nodes: map<Path, Node>, p: Path, t: Tag): map<Path, Node>
    requires p in nodes
  {
    nodes[p := nodes[p].(content := Tagged(t))]
  }

  /** Writing a tag changes one file's content and leaves the tree as it was. */
  lemma CommitPreservesTree(nodes: map<Path, Node>, p: Path, t: Tag)
    requires ValidTree(nodes) && CanCommit(nodes, p)
    ensures ValidTree(Committed(nodes, p, t))
  {
    var m := Committed(nodes, p, t);
    forall q | q in m && q != [] ensures WellPlaced(m, q) {
      assert WellPlaced(nodes, q);
    }
  }

  /** Every child of d in the tree, each once: what File.listFiles may return for d. */
  ghost predicate ListsChildren(nodes: map<Path, Node>, d: Path, s: seq<Path>) {
    && (forall p :: p in s <==> p in nodes && p != [] && Parent(p) == d)
    && (forall i, j | 0 <= i < j < |s| :: s[i] != s[j])
  }

  ghost function ChildSet(nodes: map<Path, Node>, d: Path): set<Path> {
    set p | p in nodes && p != [] && Parent(p) == d
  }

  /** Some arrangement of a finite set of paths. */
  ghost function Arranged(s: set<Path>): (r: seq<Path>)
    ensures forall p :: p in r <==> p in s
    ensures forall i, j | 0 <= i < j < |r| :: r[i] != r[j]
  {
    if s == {} then []
    else
      var x :| x in s;
      var rest := Arranged(s - {x});
      assert forall j | 0 <= j < |rest| :: ([x] + rest)[j + 1] == rest[j];
      [x] + rest
  }

  /**
   * The order in which the platform lists a directory: an arrangement of its
   * children that the tree determines.
   */
  type Lister = f: (map<Path, Node>, Path) -> seq<Path> | forall nodes, d :: ListsChildren(nodes, d, f(nodes, d))
    ghost witness (nodes: map<Path, Node>, d: Path) => Arranged(ChildSet(nodes, d))

  class FileSystem {
    var nodes: map<Path, Node>
    const lister: Lister

    ghost predicate Valid()
      reads this
    {
      ValidTree(nodes)
    }

    constructor (initial: map<Path, Node>, lister: Lister)
      requires ValidTree(initial)
      ensures Valid() && nodes == initial && this.lister == lister
    {
      nodes := initial;
      this.lister := lister;
    }

    predicate Exists(p: Path)
      reads this
    {
      p in nodes
    }

    predicate IsDirectory(p: Path)
      reads this
    {
      p in nodes && nodes[p].isDir
    }

    predicate CanRead(p: Path)
      reads this
    {
      p in nodes && nodes[p].readable
    }

    predicate CanWrite(p: Path)
      reads this
    {
      p in nodes && nodes[p].writable
    }

    /** The direct children of d. */
    function Children(d: Path): set<Path>
      reads this
    {
      set p | p in nodes && p != [] && Parent(p) == d
    }

    /** A directory whose entries can be listed. */
    predicate IsListable(d: Path)
      reads this
    {
      d in nodes && nodes[d].isDir && nodes[d].readable
    }

    /**
     * File.listFiles: the children in the platform's order, or None (Java's
     * null) when d is not a directory or cannot be read.
     */
    method ListFiles(d: Path) returns (r: Option<seq<Path>>)
      ensures r.None? <==> !IsListable(d)
      ensures r.Some? ==> r.value == lister(nodes, d)
      ensures r.Some? ==> (forall p :: p in r.value <==> p in Children(d))
      ensures r.Some? ==> (forall i, j | 0 <= i < j < |r.value| :: r.value[i] != r.value[j])
    {
      if !IsListable(d) {
        return None;
      }
      return Some(lister(nodes, d));
    }

    /** File.renameTo on Unix: rename(2), which replaces an existing file at dst. */
    method RenameTo(src: Path, dst: Path) returns (ok: bool)
      requires Valid()
      modifies this
      ensures Valid()
      ensures ok == CanRename(old(nodes), src, dst)
      ensures nodes == if ok then Renamed(old(nodes), src, dst) else old(nodes)
    {
      ok := CanRename(nodes, src, dst);
      if ok {
        RenamePreservesTree(nodes, src, dst);
        nodes := Renamed(nodes, src, dst);
      }
    }

    /** AudioFile.commit: writes the tag into the file read from p. */
    method CommitTag(p: Path, t: Tag) returns (ok: bool)
      requires Valid()
      modifies this
      ensures Valid()
      ensures ok == CanCommit(old(nodes), p)
      ensures nodes == if ok then Committed(old(nodes), p, t) else old(nodes)
    {
      ok := CanCommit(nodes, p);
      if ok {
        CommitPreservesTree(nodes, p, t);
        nodes := Committed(nodes, p, t);
      }
    }

    /** File.mkdirs for a path whose parent exists: false when nothing was created. */
    method MakeDirectory(p: Path) returns (ok: bool)
      requires Valid()
      modifies this
      ensures Valid()
      ensures ok == CanMakeDirectory(old(nodes), p)
      ensures nodes == if ok then old(nodes)[p := NewDirectory] else old(nodes)
    {
      ok := CanMakeDirectory(nodes, p);
      if ok {
        MakeDirectoryPreservesTree(nodes, p);
        nodes := nodes[p := NewDirectory];
      }
    }
  }
}
