/**
 * Diretorio: a directory of the filesystem with its content, and the
 * listings the operations work from: the direct children a filter accepts,
 * their names, and the accepted nodes of the whole subtree, each sorted by
 * ORDEM_NOME.
 */
module DiretorioModel {
  import opened Wrappers
  import opened JavaErrors
  import opened JavaStrings
  import opened FileSystemModel
  import opened Sorting
  import opened FilenameComparator
  import opened Filtro

  /** Sorted by ORDEM_NOME with no two names equal ignoring case: a TreeSet's content. */
  ghost predicate StrictlySorted(s: seq<Path>) {
    forall i, j | 0 <= i < j < |s| :: Compare(s[i], s[j]) < 0
  }

  predicate HasEqual(s: seq<Path>, x: Path) {
    exists k | 0 <= k < |s| :: Compare(x, s[k]) == 0
  }

  /** TreeSet.add with ORDEM_NOME: x goes in its place unless an equal name is already there. */
  function TreeInsert(x: Path, s: seq<Path>): (r: seq<Path>)
    requires StrictlySorted(s)
    ensures StrictlySorted(r)
    ensures forall y :: y in r <==> y in s || (y == x && !HasEqual(s, x))
    ensures HasEqual(r, x)
  {
    if s == [] then
      CompareReflexive(x);
      assert Compare(x, [x][0]) == 0;
      [x]
    else
      var c := Compare(x, s[0]);
      if c == 0 then s
      else if c < 0 then
        InsertedFirst(x, s);
        [x] + s
      else
        var rest := TreeInsert(x, s[1..]);
        InsertedAfterHead(x, s, rest);
        [s[0]] + rest
  }

  /** An element below the head goes in front. */
  lemma InsertedFirst(x: Path, s: seq<Path>)
    requires StrictlySorted(s) && s != [] && Compare(x, s[0]) < 0
    ensures StrictlySorted([x] + s)
    ensures forall y :: y in [x] + s <==> y in s || (y == x && !HasEqual(s, x))
    ensures HasEqual([x] + s, x)
  {
    assert forall k | 0 <= k < |s| :: Compare(x, s[k]) < 0 by {
      forall k | 0 < k < |s| ensures Compare(x, s[k]) < 0 {
        CompareStrictTransitive(x, s[0], s[k]);
      }
    }
    CompareReflexive(x);
    assert Compare(x, ([x] + s)[0]) == 0;
  }

  /** An element above the head goes into the tail, behind the head. */
  lemma InsertedAfterHead(x: Path, s: seq<Path>, rest: seq<Path>)
    requires StrictlySorted(s) && s != [] && Compare(x, s[0]) > 0
    requires StrictlySorted(rest)
    requires forall y :: y in rest <==> y in s[1..] || (y == x && !HasEqual(s[1..], x))
    requires HasEqual(rest, x)
    ensures StrictlySorted([s[0]] + rest)
    ensures forall y :: y in [s[0]] + rest <==> y in s || (y == x && !HasEqual(s, x))
    ensures HasEqual([s[0]] + rest, x)
  {
    CompareAntisymmetricSign(x, s[0]);
    HeadBelowRest(x, s, rest);
    ConsSorted(s[0], rest);
    AfterHeadMembers(x, s, rest);
    HasEqualCons(s[0], rest, x);
  }

  lemma AfterHeadMembers(x: Path, s: seq<Path>, rest: seq<Path>)
    requires s != [] && Compare(x, s[0]) > 0
    requires forall y :: y in rest <==> y in s[1..] || (y == x && !HasEqual(s[1..], x))
    ensures forall y :: y in [s[0]] + rest <==> y in s || (y == x && !HasEqual(s, x))
  {
    HasEqualOfTail(s, x);
    ConsMembers(s, rest);
  }

  lemma HasEqualCons(h: Path, rest: seq<Path>, x: Path)
    requires HasEqual(rest, x)
    ensures HasEqual([h] + rest, x)
  {
    var k :| 0 <= k < |rest| && Compare(x, rest[k]) == 0;
    assert Compare(x, ([h] + rest)[k + 1]) == 0;
  }

  lemma ConsSorted(h: Path, rest: seq<Path>)
    requires StrictlySorted(rest) && forall k | 0 <= k < |rest| :: Compare(h, rest[k]) < 0
    ensures StrictlySorted([h] + rest)
  {
    var r := [h] + rest;
    forall i, j | 0 <= i < j < |r| ensures Compare(r[i], r[j]) < 0 {
      if i > 0 {
        assert r[i] == rest[i - 1] && r[j] == rest[j - 1];
      } else {
        assert r[j] == rest[j - 1];
      }
    }
  }

  lemma ConsMembers(s: seq<Path>, rest: seq<Path>)
    requires s != []
    ensures forall y :: y in [s[0]] + rest <==> y == s[0] || y in rest
    ensures forall y :: y in s <==> y == s[0] || y in s[1..]
  {
    assert s == [s[0]] + s[1..];
  }

  /** An element not equal to the head has an equal in s exactly when it has one in the tail. */
  lemma HasEqualOfTail(s: seq<Path>, x: Path)
    requires s != [] && Compare(x, s[0]) != 0
    ensures HasEqual(s, x) <==> HasEqual(s[1..], x)
  {
    if HasEqual(s, x) {
      var k :| 0 <= k < |s| && Compare(x, s[k]) == 0;
      assert Compare(x, s[1..][k - 1]) == 0;
    }
    if HasEqual(s[1..], x) {
      var k :| 0 <= k < |s[1..]| && Compare(x, s[1..][k]) == 0;
      assert Compare(x, s[k + 1]) == 0;
    }
  }

  lemma HeadBelowRest(x: Path, s: seq<Path>, rest: seq<Path>)
    requires s != [] && StrictlySorted(s) && Compare(s[0], x) < 0
    requires forall y :: y in rest ==> y in s[1..] || y == x
    ensures forall k | 0 <= k < |rest| :: Compare(s[0], rest[k]) < 0
  {
    forall k | 0 <= k < |rest| ensures Compare(s[0], rest[k]) < 0 {
      assert rest[k] in rest;
      if rest[k] != x {
        var m :| 0 <= m < |s[1..]| && s[1..][m] == rest[k];
        assert s[m + 1] == rest[k];
      }
    }
  }

  /** An element with an equal in s keeps one in any sequence holding all of s. */
  lemma HasEqualKept(s: seq<Path>, r: seq<Path>, y: Path)
    requires forall z :: z in s ==> z in r
    requires HasEqual(s, y)
    ensures HasEqual(r, y)
  {
    var k :| 0 <= k < |s| && Compare(y, s[k]) == 0;
    assert s[k] in r;
    var i :| 0 <= i < |r| && r[i] == s[k];
  }

  /** x is a child of d that d's listing through the filter returns. */
  ghost predicate ListedBy(nodes: map<Path, Node>, extensions: seq<string>, acceptDirectories: bool, d: Path, x: Path) {
    && d in nodes && nodes[d].isDir && nodes[d].readable
    && x in nodes && x != [] && Parent(x) == d
    && Accepts(nodes, extensions, acceptDirectories, d, NameOf(x))
  }

  /** A filter that rejects directories lists only entries that are not directories. */
  lemma ListedWithoutDirectories(nodes: map<Path, Node>, extensions: seq<string>, d: Path, x: Path)
    requires ValidTree(nodes) && ListedBy(nodes, extensions, false, d, x)
    ensures !nodes[x].isDir
  {
    assert WellPlaced(nodes, x);
    ComponentsOfValidName(NameOf(x));
    assert Resolve(d, NameOf(x)) == x;
  }

  /** d is root, or a readable directory reached from root through readable directories. */
  ghost predicate Listable(nodes: map<Path, Node>, root: Path, d: Path)
    decreases |d|
  {
    && d in nodes && nodes[d].isDir && nodes[d].readable
    && (d == root || (|d| > |root| && Under(root, d) && Listable(nodes, root, Parent(d))))
  }

  /** x is in the recursive listing of root: its directory is listable and the filter accepts it. */
  ghost predicate InRecursiveListing(nodes: map<Path, Node>, extensions: seq<string>, acceptDirectories: bool,
                                     root: Path, x: Path)
  {
    && x != [] && |x| > |root| && Under(root, x)
    && Listable(nodes, root, Parent(x))
    && ListedBy(nodes, extensions, acceptDirectories, Parent(x), x)
  }

  /** Every directory on the way from root to a listable directory is listable. */
  lemma {:induction false} ListableAncestor(nodes: map<Path, Node>, root: Path, y: Path, d: Path)
    requires Listable(nodes, root, y) && Under(d, y) && Under(root, d)
    ensures Listable(nodes, root, d)
    decreases |y|
  {
    if |y| > |d| {
      assert y != root by {
        assert |root| <= |d|;
      }
      assert Under(d, Parent(y)) by {
        assert Parent(y)[..|d|] == y[..|d|];
      }
      ListableAncestor(nodes, root, Parent(y), d);
    } else {
      assert y == d by {
        assert y[..|d|] == y;
      }
    }
  }

  /** The entries of s whose names the filter accepts in d, in the order of s. */
  function AcceptedOf(nodes: map<Path, Node>, extensions: seq<string>, acceptDirectories: bool, d: Path,
                      s: seq<Path>): seq<Path>
  {
    if s == [] then []
    else
      var x := s[|s| - 1];
      AcceptedOf(nodes, extensions, acceptDirectories, d, s[..|s| - 1])
        + (if x != [] && Accepts(nodes, extensions, acceptDirectories, d, NameOf(x)) then [x] else [])
  }

  /** Filtering keeps exactly the accepted entries, and no entry twice. */
  lemma {:induction false} AcceptedOfMembers(nodes: map<Path, Node>, extensions: seq<string>, acceptDirectories: bool,
                                             d: Path, s: seq<Path>)
    ensures forall x :: x in AcceptedOf(nodes, extensions, acceptDirectories, d, s) <==>
      x in s && x != [] && Accepts(nodes, extensions, acceptDirectories, d, NameOf(x))
    ensures Distinct(s) ==> Distinct(AcceptedOf(nodes, extensions, acceptDirectories, d, s))
  {
    if s != [] {
      var init, x := s[..|s| - 1], s[|s| - 1];
      assert s == init + [x];
      AcceptedOfMembers(nodes, extensions, acceptDirectories, d, init);
      if Distinct(s) {
        assert Distinct(init) by {
          forall i, j | 0 <= i < j < |init| ensures init[i] != init[j] {
            assert init[i] == s[i] && init[j] == s[j];
          }
        }
        assert x !in init by {
          forall k | 0 <= k < |init| ensures init[k] != x {
            assert init[k] == s[k];
          }
        }
        var tail := if x != [] && Accepts(nodes, extensions, acceptDirectories, d, NameOf(x)) then [x] else [];
        DistinctConcat(AcceptedOf(nodes, extensions, acceptDirectories, d, init), tail);
      }
    }
  }

  /**
   * listarConteudoInterno as a value: the platform's listing of d through
   * the filter, sorted by ORDEM_NOME; [] for a null listing.  AcceptedListing
   * states what the entries are; this is the same listing with only the
   * shape a walk over it needs.
   */
  function FilteredListing(lister: Lister, nodes: map<Path, Node>, extensions: seq<string>, acceptDirectories: bool,
                           d: Path): (files: seq<Path>)
    ensures forall x | x in files :: x != [] && Parent(x) == d
  {
    if d in nodes && nodes[d].isDir && nodes[d].readable then
      var accepted := AcceptedOf(nodes, extensions, acceptDirectories, d, lister(nodes, d));
      AcceptedOfMembers(nodes, extensions, acceptDirectories, d, lister(nodes, d));
      assert forall x | x in Sort(accepted, NameLe) :: x in accepted by {
        forall x | x in Sort(accepted, NameLe) ensures x in accepted {
          SortKeepsElements(accepted, NameLe, x);
        }
      }
      Sort(accepted, NameLe)
    else []
  }

  /**
   * The listing of d: sorted by ORDEM_NOME, holding exactly the children of
   * a readable directory d that the filter accepts, each once.
   */
  function AcceptedListing(lister: Lister, nodes: map<Path, Node>, extensions: seq<string>, acceptDirectories: bool,
                           d: Path): (files: seq<Path>)
    ensures SortedBy(files, NameLe)
    ensures forall x :: x in files <==> ListedBy(nodes, extensions, acceptDirectories, d, x)
    ensures Distinct(files)
    ensures forall x | x in files :: x != [] && Parent(x) == d
  {
    if d in nodes && nodes[d].isDir && nodes[d].readable then
      var accepted := AcceptedOf(nodes, extensions, acceptDirectories, d, lister(nodes, d));
      AcceptedOfMembers(nodes, extensions, acceptDirectories, d, lister(nodes, d));
      NameLeIsTotalPreorder();
      SortSorted(accepted, NameLe);
      PermutationKeepsDistinct(accepted, Sort(accepted, NameLe));
      assert forall x :: x in Sort(accepted, NameLe) <==> x in accepted by {
        forall x ensures x in Sort(accepted, NameLe) <==> x in accepted {
          SortKeepsElements(accepted, NameLe, x);
        }
      }
      assert Sort(accepted, NameLe) == FilteredListing(lister, nodes, extensions, acceptDirectories, d);
      FilteredListing(lister, nodes, extensions, acceptDirectories, d)
    else FilteredListing(lister, nodes, extensions, acceptDirectories, d)
  }

  /** The names of the entries, in order ("" for the root, which is never listed). */
  function Names(files: seq<Path>): (names: seq<string>)
    ensures |names| == |files|
    ensures forall m | 0 <= m < |files| && files[m] != [] :: names[m] == NameOf(files[m])
  {
    if files == [] then []
    else
      var last := files[|files| - 1];
      Names(files[..|files| - 1]) + [if last == [] then "" else NameOf(last)]
  }

  /** A name is listed exactly when some entry has it. */
  lemma NamesMembers(files: seq<Path>)
    ensures forall n :: n in Names(files) <==> exists x :: x in files && (if x == [] then "" else NameOf(x)) == n
  {
    var names := Names(files);
    forall n | n in names ensures exists x :: x in files && (if x == [] then "" else NameOf(x)) == n {
      var m :| 0 <= m < |names| && names[m] == n;
      NamesAt(files, m);
      assert files[m] in files;
    }
    forall x | x in files ensures (if x == [] then "" else NameOf(x)) in names {
      var m :| 0 <= m < |files| && files[m] == x;
      NamesAt(files, m);
    }
  }

  /** Sorting the files by ORDEM_NOME sorts their names, ignoring case. */
  lemma NamesInOrder(files: seq<Path>)
    requires SortedBy(files, NameLe)
    requires forall x | x in files :: x != []
    ensures forall i, j | 0 <= i < j < |Names(files)| :: JavaCompare(Lower(Names(files)[i]), Lower(Names(files)[j])) <= 0
  {
    var names := Names(files);
    forall i, j | 0 <= i < j < |names| ensures JavaCompare(Lower(names[i]), Lower(names[j])) <= 0 {
      assert files[i] in files && files[j] in files;
      NamesAt(files, i);
      NamesAt(files, j);
      assert NameLe(files[i], files[j]);
    }
  }

  lemma NamesAt(files: seq<Path>, m: nat)
    requires m < |files|
    ensures Names(files)[m] == if files[m] == [] then "" else NameOf(files[m])
  {
  }

  class Diretorio {
    const path: Path
    /** The TreeSet filled by the constructor. */
    const allContent: seq<Path>

    constructor (path: Path, allContent: seq<Path>)
      ensures this.path == path && this.allContent == allContent
    {
      this.path := path;
      this.allContent := allContent;
    }

    /**
     * listarConteudo: the children the filter accepts, sorted by ORDEM_NOME;
     * empty when the directory cannot be listed.
     */
    method ListarConteudo(fs: FileSystem, filter: FiltroExtensoes) returns (files: seq<Path>)
      ensures files == AcceptedListing(fs.lister, fs.nodes, filter.extensionsAccepted, filter.acceptDirectories, path)
      ensures SortedBy(files, NameLe)
      ensures forall x :: x in files <==>
        ListedBy(fs.nodes, filter.extensionsAccepted, filter.acceptDirectories, path, x)
      ensures Distinct(files)
    {
      files := ListAccepted(fs, path, filter);
    }

    /** listFileNames: the names of listarConteudo's files, in the same order. */
    method ListFileNames(fs: FileSystem, filter: FiltroExtensoes) returns (names: seq<string>)
      ensures names == Names(AcceptedListing(fs.lister, fs.nodes, filter.extensionsAccepted, filter.acceptDirectories, path))
      ensures forall n :: n in names <==> exists x ::
        ListedBy(fs.nodes, filter.extensionsAccepted, filter.acceptDirectories, path, x) && NameOf(x) == n
      ensures forall i, j | 0 <= i < j < |names| :: JavaCompare(Lower(names[i]), Lower(names[j])) <= 0
    {
      var files := ListarConteudo(fs, filter);
      names := [];
      for k := 0 to |files|
        invariant names == Names(files[..k])
      {
        assert files[k] in files;
        assert files[..k + 1][..k] == files[..k];
        names := names + [NameOf(files[k])];
      }
      assert files[..|files|] == files;
      NamesMembers(files);
      NamesInOrder(files);
      forall n | n in names ensures exists x ::
        ListedBy(fs.nodes, filter.extensionsAccepted, filter.acceptDirectories, path, x) && NameOf(x) == n
      {
        var x :| x in files && x != [] && NameOf(x) == n;
      }
    }

    /**
     * listarConteudoRecursivo: the accepted entries of every listable
     * directory of the subtree (the descent ignores the filter), sorted by
     * ORDEM_NOME.
     */
    method ListarConteudoRecursivo(fs: FileSystem, filter: FiltroExtensoes) returns (files: seq<Path>)
      requires fs.Valid() && path in fs.nodes && fs.nodes[path].isDir
      ensures SortedBy(files, NameLe)
      ensures forall x :: x in files <==>
        InRecursiveListing(fs.nodes, filter.extensionsAccepted, filter.acceptDirectories, path, x)
      ensures Distinct(files)
    {
      var collected := Collect(fs, path, path, filter, []);
      NameLeIsTotalPreorder();
      SortSorted(collected, NameLe);
      files := Sort(collected, NameLe);
      PermutationKeepsDistinct(collected, files);
      forall x ensures x in files <==> x in collected {
        SortKeepsElements(collected, NameLe, x);
      }
    }
  }

  /** listarConteudoInterno: the listing through the filter, sorted; [] for a null listing. */
  method ListAccepted(fs: FileSystem, d: Path, filter: FiltroExtensoes) returns (files: seq<Path>)
    ensures files == AcceptedListing(fs.lister, fs.nodes, filter.extensionsAccepted, filter.acceptDirectories, d)
    ensures SortedBy(files, NameLe)
    ensures forall x :: x in files <==>
      ListedBy(fs.nodes, filter.extensionsAccepted, filter.acceptDirectories, d, x)
    ensures Distinct(files)
  {
    var listing := fs.ListFiles(d);
    if listing.None? {
      return [];
    }
    var children := listing.value;
    var accepted: seq<Path> := [];
    for k := 0 to |children|
      invariant accepted == AcceptedOf(fs.nodes, filter.extensionsAccepted, filter.acceptDirectories, d, children[..k])
    {
      assert children[..k + 1][..k] == children[..k];
      assert children[k] in fs.Children(d);
      var ok := filter.Accept(fs, d, NameOf(children[k]));
      if ok {
        accepted := accepted + [children[k]];
      }
    }
    assert children[..|children|] == children;
    files := Sort(accepted, NameLe);
  }

  /**
   * The private listarConteudoRecursivo(dir, filter, fileList): appends the
   * accepted entries of d, then descends into every subdirectory of d.
   */
  method Collect(fs: FileSystem, root: Path, d: Path, filter: FiltroExtensoes, acc: seq<Path>)
    returns (files: seq<Path>)
    requires fs.Valid()
    requires d in fs.nodes && fs.nodes[d].isDir
    requires d == root || (|d| > |root| && Under(root, d) && Listable(fs.nodes, root, Parent(d)))
    ensures forall x :: x in files <==> (x in acc || BelowIn(fs.nodes, filter.extensionsAccepted, filter.acceptDirectories, root, d, x))
    ensures Distinct(acc) && (forall x | x in acc :: !(Under(d, x) && |x| > |d|)) ==> Distinct(files)
    decreases MaxDepth - |d|, 1
  {
    ghost var nodes := fs.nodes;
    ghost var exts, flag := filter.extensionsAccepted, filter.acceptDirectories;
    var direct := ListAccepted(fs, d, filter);
    if Distinct(acc) && (forall x | x in acc :: !(Under(d, x) && |x| > |d|)) {
      AppendDirect(acc, direct, d);
    }
    files := acc + direct;
    var listing := fs.ListFiles(d);
    if listing.None? {
      NothingBelowUnlistable(nodes, exts, flag, root, d);
      return;
    }
    assert Listable(nodes, root, d);
    forall x ensures x in direct <==> BelowIn(nodes, exts, flag, root, d, x) && Parent(x) == d {
      DirectEntry(nodes, exts, flag, root, d, x);
    }
    files := Descend(fs, root, d, filter, acc, listing.value, files);
  }

  /** The loop of listarConteudoRecursivo: every subdirectory of d, in listing order, collected in turn. */
  method Descend(fs: FileSystem, root: Path, d: Path, filter: FiltroExtensoes, acc: seq<Path>,
                 subs: seq<Path>, gathered: seq<Path>)
    returns (files: seq<Path>)
    requires fs.Valid()
    requires Listable(fs.nodes, root, d)
    requires d == root || (|d| > |root| && Under(root, d))
    requires forall p :: p in subs <==> p in fs.Children(d)
    requires Distinct(subs)
    requires forall x :: x in gathered <==>
      (x in acc || (BelowIn(fs.nodes, filter.extensionsAccepted, filter.acceptDirectories, root, d, x) && Parent(x) == d))
    ensures forall x :: x in files <==> (x in acc || BelowIn(fs.nodes, filter.extensionsAccepted, filter.acceptDirectories, root, d, x))
    ensures Distinct(gathered) && (forall x | x in acc :: !(Under(d, x) && |x| > |d|)) ==> Distinct(files)
    decreases MaxDepth - |d|, 0
  {
    ghost var separate := Distinct(gathered) && (forall x | x in acc :: !(Under(d, x) && |x| > |d|));
    ghost var nodes := fs.nodes;
    ghost var exts, flag := filter.extensionsAccepted, filter.acceptDirectories;
    assert |d| <= MaxDepth by {
      if d != [] {
        assert WellPlaced(nodes, d);
      }
    }
    assert forall m | 0 <= m < |subs| :: subs[m] != [] && Parent(subs[m]) == d by {
      forall m | 0 <= m < |subs| ensures subs[m] != [] && Parent(subs[m]) == d {
        assert subs[m] in fs.Children(d);
      }
    }
    files := gathered;
    for k := 0 to |subs|
      invariant fs.nodes == nodes
      invariant forall x :: x in files <==>
        (x in acc || (BelowIn(nodes, exts, flag, root, d, x) && (Parent(x) == d || Covered(subs, k, x))))
      invariant separate ==> Distinct(files)
    {
      var c := subs[k];
      assert c in fs.Children(d);
      if fs.IsDirectory(c) {
        assert WellPlaced(nodes, c);
        if separate {
          GatheredOutsideChild(nodes, exts, flag, root, d, subs, k, acc, files);
        }
        files := Collect(fs, root, c, filter, files);
        forall x ensures x in files <==>
          (x in acc || (BelowIn(nodes, exts, flag, root, d, x) && (Parent(x) == d || Covered(subs, k + 1, x))))
        {
          CoveredStep(subs, k, x);
          BelowChildIsBelow(nodes, exts, flag, root, d, c, x);
        }
      } else {
        forall x ensures x in files <==>
          (x in acc || (BelowIn(nodes, exts, flag, root, d, x) && (Parent(x) == d || Covered(subs, k + 1, x))))
        {
          CoveredStep(subs, k, x);
          NothingBelowFileListed(nodes, exts, flag, root, c, x);
        }
      }
    }
    forall x | BelowIn(nodes, exts, flag, root, d, x) && Parent(x) != d
      ensures Covered(subs, |subs|, x)
    {
      var c := ChildOnTheWay(nodes, exts, flag, root, d, x);
      assert c in fs.Children(d);
      var m :| 0 <= m < |subs| && subs[m] == c;
    }
  }

  /**
   * What the walk has gathered before reaching subs[k] (entries of acc,
   * which lie outside d, entries of d, and entries below earlier children)
   * lies outside subs[k].
   */
  lemma NotBelowNextChild(d: Path, subs: seq<Path>, k: nat, x: Path, fromAcc: bool)
    requires k < |subs| && Distinct(subs)
    requires forall m | 0 <= m < |subs| :: subs[m] != [] && Parent(subs[m]) == d
    requires fromAcc ==> !(Under(d, x) && |x| > |d|)
    requires !fromAcc ==> (x != [] && Parent(x) == d) || Covered(subs, k, x)
    ensures !(Under(subs[k], x) && |x| > |subs[k]|)
  {
    var c := subs[k];
    if |x| > |c| {
      assert x[..|d|] == x[..|c|][..|d|];
      if !fromAcc && !(x != [] && Parent(x) == d) {
        var m :| 0 <= m < k && Under(subs[m], x) && |x| > |subs[m]|;
        assert subs[m] == x[..|c|];
        assert subs[m] != c;
      }
    }
  }

  /** Everything gathered before subs[k] lies outside it. */
  lemma GatheredOutsideChild(nodes: map<Path, Node>, exts: seq<string>, flag: bool, root: Path, d: Path,
                             subs: seq<Path>, k: nat, acc: seq<Path>, files: seq<Path>)
    requires k < |subs| && Distinct(subs)
    requires forall m | 0 <= m < |subs| :: subs[m] != [] && Parent(subs[m]) == d
    requires forall x | x in acc :: !(Under(d, x) && |x| > |d|)
    requires forall x :: x in files <==>
      (x in acc || (BelowIn(nodes, exts, flag, root, d, x) && (Parent(x) == d || Covered(subs, k, x))))
    ensures forall x | x in files :: !(Under(subs[k], x) && |x| > |subs[k]|)
  {
    forall x | x in files ensures !(Under(subs[k], x) && |x| > |subs[k]|) {
      NotBelowNextChild(d, subs, k, x, x in acc);
    }
  }

  /** The entries of d, appended to an accumulator that holds nothing below d, repeat nothing. */
  lemma AppendDirect(acc: seq<Path>, direct: seq<Path>, d: Path)
    requires Distinct(acc) && forall x | x in acc :: !(Under(d, x) && |x| > |d|)
    requires Distinct(direct) && forall x | x in direct :: x != [] && Parent(x) == d
    ensures Distinct(acc + direct)
  {
    forall x | x in direct ensures Under(d, x) && |x| > |d| {
      assert x[..|d|] == d;
    }
    DistinctConcat(acc, direct);
  }

  lemma CoveredStep(subs: seq<Path>, k: nat, x: Path)
    requires k < |subs|
    ensures Covered(subs, k + 1, x) <==> Covered(subs, k, x) || (Under(subs[k], x) && |x| > |subs[k]|)
  {
    if Covered(subs, k + 1, x) && !Covered(subs, k, x) {
      var m :| 0 <= m < k + 1 && Under(subs[m], x) && |x| > |subs[m]|;
      assert m == k;
    }
  }

  /** The direct entries of a listable d are the listed entries one level below it. */
  lemma DirectEntry(nodes: map<Path, Node>, exts: seq<string>, flag: bool, root: Path, d: Path, x: Path)
    requires Listable(nodes, root, d)
    requires d == root || (|d| > |root| && Under(root, d))
    ensures ListedBy(nodes, exts, flag, d, x) <==> BelowIn(nodes, exts, flag, root, d, x) && Parent(x) == d
  {
    if ListedBy(nodes, exts, flag, d, x) {
      assert x[..|d|] == d;
      assert Under(root, x) by {
        if d != root {
          assert x[..|root|] == d[..|root|];
        }
      }
    }
  }

  /** x lies strictly below one of the first k entries of subs. */
  predicate Covered(subs: seq<Path>, k: nat, x: Path)
    requires k <= |subs|
  {
    exists m | 0 <= m < k :: Under(subs[m], x) && |x| > |subs[m]|
  }

  /** x lies strictly below d and is in the recursive listing of root. */
  ghost predicate BelowIn(nodes: map<Path, Node>, extensions: seq<string>, acceptDirectories: bool,
                          root: Path, d: Path, x: Path)
  {
    Under(d, x) && |x| > |d| && InRecursiveListing(nodes, extensions, acceptDirectories, root, x)
  }

  /** Below a directory that is reached but cannot be listed, nothing is listed. */
  lemma NothingBelowUnlistable(nodes: map<Path, Node>, exts: seq<string>, flag: bool, root: Path, d: Path)
    requires !Listable(nodes, root, d)
    requires d == root || (|d| > |root| && Under(root, d))
    ensures forall x :: !BelowIn(nodes, exts, flag, root, d, x)
  {
    forall x | BelowIn(nodes, exts, flag, root, d, x) ensures false {
      assert Under(root, d) by {
        if d != root {
          assert x[..|root|] == d[..|root|];
        }
      }
      assert Under(d, Parent(x)) by {
        assert Parent(x)[..|d|] == x[..|d|];
      }
      ListableAncestor(nodes, root, Parent(x), d);
    }
  }

  /** Below a file, nothing is listed. */
  lemma NothingBelowFileListed(nodes: map<Path, Node>, exts: seq<string>, flag: bool, root: Path, c: Path, x: Path)
    requires ValidTree(nodes) && c in nodes && !nodes[c].isDir
    ensures !BelowIn(nodes, exts, flag, root, c, x)
  {
    if BelowIn(nodes, exts, flag, root, c, x) {
      assert Under(c, Parent(x)) by {
        assert Parent(x)[..|c|] == x[..|c|];
      }
      if Parent(x) != c {
        NothingBelowFile(nodes, c, Parent(x));
      }
    }
  }

  /** What is listed below a child of d is listed below d. */
  lemma BelowChildIsBelow(nodes: map<Path, Node>, exts: seq<string>, flag: bool, root: Path, d: Path, c: Path, x: Path)
    requires c != [] && Parent(c) == d
    ensures BelowIn(nodes, exts, flag, root, c, x) ==> BelowIn(nodes, exts, flag, root, d, x)
  {
    if BelowIn(nodes, exts, flag, root, c, x) {
      assert x[..|d|] == x[..|c|][..|d|];
    }
  }

  /** An entry listed deeper than d's children lies below the child of d on its path, a listable directory. */
  lemma ChildOnTheWay(nodes: map<Path, Node>, exts: seq<string>, flag: bool, root: Path, d: Path, x: Path)
    returns (c: Path)
    requires d == root || (|d| > |root| && Under(root, d))
    requires BelowIn(nodes, exts, flag, root, d, x) && Parent(x) != d
    ensures c != [] && Parent(c) == d && c in nodes && nodes[c].isDir
    ensures Under(c, x) && |x| > |c|
  {
    c := x[..|d| + 1];
    assert Under(root, d) by {
      if d != root {
        assert x[..|root|] == d[..|root|];
      }
    }
    assert Under(c, Parent(x)) by {
      assert Parent(x)[..|c|] == c;
    }
    assert Under(root, c) by {
      assert c[..|root|] == x[..|root|];
    }
    ListableAncestor(nodes, root, Parent(x), c);
    assert Parent(c) == d;
  }

  /**
   * new Diretorio(path): UnsupportedOperationException unless path is an
   * existing directory; a directory that cannot be listed gives a null array,
   * which Arrays.asList rejects.  allContent keeps one child per name
   * ignoring case, sorted by ORDEM_NOME.
   */
  method NewDiretorio(fs: FileSystem, path: Path) returns (r: Result<Diretorio, Exception>)
    ensures r.Err? <==> !fs.IsListable(path)
    ensures r.Err? ==> (r.error.UnsupportedOperation? <==> !fs.IsDirectory(path))
    ensures r.Err? && fs.IsDirectory(path) ==> r.error == NullPointer
    ensures r.Ok? ==> fresh(r.value) && r.value.path == path
    ensures r.Ok? ==> StrictlySorted(r.value.allContent)
    ensures r.Ok? ==> forall x :: x in r.value.allContent ==> x in fs.Children(path)
    ensures r.Ok? ==> forall x :: x in fs.Children(path) ==> HasEqual(r.value.allContent, x)
  {
    if !fs.IsDirectory(path) {
      return Err(UnsupportedOperation("Nao é permitido instanciar um diretório em um caminho inválido."));
    }
    var listing := fs.ListFiles(path);
    if listing.None? {
      return Err(NullPointer);
    }
    var children := listing.value;
    var content: seq<Path> := [];
    for k := 0 to |children|
      invariant StrictlySorted(content)
      invariant forall x :: x in content ==> x in fs.Children(path)
      invariant forall m | 0 <= m < k :: HasEqual(content, children[m])
    {
      ghost var before := content;
      content := TreeInsert(children[k], content);
      forall m | 0 <= m < k ensures HasEqual(content, children[m]) {
        HasEqualKept(before, content, children[m]);
      }
      assert children[k] in fs.Children(path);
    }
    var d := new Diretorio(path, content);
    return Ok(d);
  }
}
