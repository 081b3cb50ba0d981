/**
 * FiltroExtensoes: a filename filter that accepts files by the end of their
 * name and directories by a flag.
 */
module Filtro {
  import opened Wrappers
  import opened JavaErrors
  import opened JavaStrings
  import opened FileSystemModel
  import opened Extensoes
  import opened Sorting

  /** Some accepted extension, lowercased, ends the lowercased name; no dot is required. */
  predicate AcceptsName(extensions: seq<string>, name: string) {
    exists j | 0 <= j < |extensions| :: EndsWith(Lower(name), Lower(extensions[j]))
  }

  /** accept(dir, name): the flag for a directory, the name test for anything else. */
  predicate Accepts(nodes: map<Path, Node>, extensions: seq<string>, acceptDirectories: bool,
                    dir: Path, name: string)
  {
    var file := Resolve(dir, name);
    if file in nodes && nodes[file].isDir then acceptDirectories else AcceptsName(extensions, name)
  }

  /** Adding an extension never rejects a name that was accepted. */
  lemma AddingExtensionKeepsAccepted(extensions: seq<string>, e: string, name: string)
    requires AcceptsName(extensions, name)
    ensures AcceptsName(extensions + [e], name)
  {
    var j :| 0 <= j < |extensions| && EndsWith(Lower(name), Lower(extensions[j]));
    assert (extensions + [e])[j] == extensions[j];
  }

  /** The added extension is accepted from then on, in any case. */
  lemma AddedExtensionAccepted(extensions: seq<string>, e: string, name: string)
    requires EndsWith(Lower(name), Lower(e))
    ensures AcceptsName(extensions + [e], name)
  {
    assert (extensions + [e])[|extensions|] == e;
  }

  lemma AcceptsNameIgnoresCase(extensions: seq<string>, name: string)
    ensures AcceptsName(extensions, name) == AcceptsName(extensions, Upper(name))
  {
    assert Lower(Upper(name)) == Lower(name);
  }

  /** Extensao.valueOf(ext.toUpperCase()). */
  function ConstantOf(ext: string): (r: Result<Extensao, Exception>)
    ensures r.Ok? <==> exists e: Extensao :: Name(e) == Upper(ext)
    ensures r.Ok? ==> Name(r.value) == Upper(ext)
  {
    ValueOf(Upper(ext))
  }

  class FiltroExtensoes {
    var extensionsAccepted: seq<string>
    var description: Option<string>
    var acceptDirectories: bool
    /** The object is a FiltroExtensoesFilechooser, whose accept(File) takes every directory. */
    const forFileChooser: bool

    constructor (extensoes: seq<string>)
      requires extensoes != []
      ensures extensionsAccepted == extensoes && description == None && !acceptDirectories && !forFileChooser
    {
      extensionsAccepted := extensoes;
      description := None;
      acceptDirectories := false;
      forFileChooser := false;
    }

    /** new FiltroExtensoesFilechooser(extensoes). */
    constructor FileChooser(extensoes: seq<string>)
      requires extensoes != []
      ensures extensionsAccepted == extensoes && description == None && !acceptDirectories && forFileChooser
    {
      extensionsAccepted := extensoes;
      description := None;
      acceptDirectories := false;
      forFileChooser := true;
    }

    /** accept(dir, name), scanning the extensions until one matches. */
    method Accept(fs: FileSystem, dir: Path, name: string) returns (accepted: bool)
      ensures accepted == Accepts(fs.nodes, extensionsAccepted, acceptDirectories, dir, name)
    {
      var file := Resolve(dir, name);
      if fs.IsDirectory(file) {
        return acceptDirectories;
      }
      accepted := false;
      var j := 0;
      while j < |extensionsAccepted|
        invariant 0 <= j <= |extensionsAccepted|
        invariant forall m | 0 <= m < j :: !EndsWith(Lower(name), Lower(extensionsAccepted[m]))
      {
        if EndsWith(Lower(name), Lower(extensionsAccepted[j])) {
          accepted := true;
          break;
        }
        j := j + 1;
      }
    }

    /**
     * accept(File): hands the file itself over as the directory, so the
     * directory test looks at p/name(p) rather than at p.  The file chooser's
     * override then takes any directory that test refused.
     */
    method AcceptFile(fs: FileSystem, p: Path) returns (accepted: bool)
      requires p != []
      ensures accepted == (Accepts(fs.nodes, extensionsAccepted, acceptDirectories, p, NameOf(p))
                           || (forFileChooser && fs.IsDirectory(p)))
    {
      accepted := Accept(fs, p, NameOf(p));
      if !accepted && forFileChooser && fs.IsDirectory(p) {
        accepted := true;
      }
    }

    /**
     * getExtensionsAccepted: the constants named by the upper-cased
     * extensions; valueOf's IllegalArgumentException for the first one that
     * names no constant.
     */
    method GetExtensionsAccepted() returns (r: Result<set<Extensao>, Exception>)
      ensures r.Ok? <==> forall j | 0 <= j < |extensionsAccepted| :: ConstantOf(extensionsAccepted[j]).Ok?
      ensures r.Ok? ==> forall e :: e in r.value <==> exists j | 0 <= j < |extensionsAccepted| ::
                          ConstantOf(extensionsAccepted[j]) == Ok(e)
    {
      var extensoes: set<Extensao> := {};
      for j := 0 to |extensionsAccepted|
        invariant forall m | 0 <= m < j :: ConstantOf(extensionsAccepted[m]).Ok?
        invariant forall e :: e in extensoes <==> exists m | 0 <= m < j :: ConstantOf(extensionsAccepted[m]) == Ok(e)
      {
        var c := ConstantOf(extensionsAccepted[j]);
        if c.Err? {
          return Err(c.error);
        }
        forall m | 0 <= m < j + 1 ensures ConstantOf(extensionsAccepted[m]).Ok? {
          if m == j {
            assert ConstantOf(extensionsAccepted[m]) == c;
          }
        }
        ghost var prev := extensoes;
        extensoes := extensoes + {c.value};
        forall e | e in extensoes ensures exists m | 0 <= m < j + 1 :: ConstantOf(extensionsAccepted[m]) == Ok(e) {
          if e !in prev {
            assert ConstantOf(extensionsAccepted[j]) == Ok(e);
          }
        }
      }
      return Ok(extensoes);
    }

    /** compareTo: the natural order of the descriptions, which callers always set. */
    function CompareTo(other: FiltroExtensoes): int
      reads this, other
      requires description.Some? && other.description.Some?
    {
      JavaCompare(description.value, other.description.value)
    }

    method SetDescription(d: string)
      modifies this
      ensures description == Some(d)
      ensures extensionsAccepted == old(extensionsAccepted) && acceptDirectories == old(acceptDirectories)
    {
      description := Some(d);
    }

    method SetAcceptDirectories(flag: bool)
      modifies this
      ensures acceptDirectories == flag
      ensures extensionsAccepted == old(extensionsAccepted) && description == old(description)
    {
      acceptDirectories := flag;
    }

    /** addExtensao: appends, keeping the extensions already there. */
    method AddExtensao(e: string)
      modifies this
      ensures extensionsAccepted == old(extensionsAccepted) + [e]
      ensures description == old(description) && acceptDirectories == old(acceptDirectories)
    {
      extensionsAccepted := extensionsAccepted + [e];
    }
  }

  /**
   * new FiltroExtensoes(list): UnsupportedOperationException for a missing
   * (None) or empty list; otherwise a filter over the list, without
   * description, rejecting directories.
   */
  method NewFiltroExtensoes(extensoes: Option<seq<string>>) returns (r: Result<FiltroExtensoes, Exception>)
    ensures r.Err? <==> extensoes.None? || extensoes.value == []
    ensures r.Err? ==> r.error.UnsupportedOperation?
    ensures r.Ok? ==> fresh(r.value) && r.value.extensionsAccepted == extensoes.value
                      && r.value.description == None && !r.value.acceptDirectories && !r.value.forFileChooser
  {
    if extensoes.None? || extensoes.value == [] {
      return Err(UnsupportedOperation("Nao é permitido instanciar um Filtro de Extensões sem especificar as extensões aceitas."));
    }
    var f := new FiltroExtensoes(extensoes.value);
    return Ok(f);
  }

  /** A directory is judged by the flag alone. */
  lemma DirectoryJudgedByFlag(nodes: map<Path, Node>, extensions: seq<string>, flag: bool, dir: Path, name: string)
    requires Resolve(dir, name) in nodes && nodes[Resolve(dir, name)].isDir
    ensures Accepts(nodes, extensions, flag, dir, name) == flag
  {
  }

  /**
   * accept(File) on a directory d whose name ends with no extension rejects
   * it, whatever the flag, unless d holds a directory of its own name.
   */
  lemma AcceptFileIgnoresDirectoryFlag(nodes: map<Path, Node>, extensions: seq<string>, d: Path)
    requires d != [] && ValidName(NameOf(d)) && !AcceptsName(extensions, NameOf(d))
    requires d + [NameOf(d)] !in nodes
    ensures !Accepts(nodes, extensions, true, d, NameOf(d))
  {
    ComponentsOfValidName(NameOf(d));
  }

  /** FilenameFilter results compare by description; the order is antisymmetric and transitive. */
  lemma CompareToAntisymmetric(a: FiltroExtensoes, b: FiltroExtensoes)
    requires a.description.Some? && b.description.Some?
    ensures a.CompareTo(b) == -b.CompareTo(a)
  {
    CompareAntisymmetric(a.description.value, b.description.value);
  }

  /**
   * allAcceptedFilter: a filter over asStrings, without description and
   * rejecting directories.
   */
  method AllAcceptedFilter(text: Extensao -> string) returns (f: FiltroExtensoes)
    ensures fresh(f)
    ensures f.extensionsAccepted == AsStrings(text) && f.description == None && !f.acceptDirectories
    ensures !f.forFileChooser
  {
    f := new FiltroExtensoes(AsStrings(text));
  }

  /** The all-accepted filter takes a file exactly when its name ends with a table extension. */
  lemma AllAcceptedFilterAccepts(text: Extensao -> string, name: string)
    ensures AcceptsName(AsStrings(text), name) <==>
            exists j | 0 <= j < |AsStringsUnsorted(text)| :: EndsWith(Lower(name), Lower(AsStringsUnsorted(text)[j]))
  {
    var s, u := AsStrings(text), AsStringsUnsorted(text);
    if AcceptsName(s, name) {
      var j :| 0 <= j < |s| && EndsWith(Lower(name), Lower(s[j]));
      SortKeepsElements(u, StringLe, s[j]);
      assert s[j] in u;
    }
    if exists j | 0 <= j < |u| :: EndsWith(Lower(name), Lower(u[j])) {
      var j :| 0 <= j < |u| && EndsWith(Lower(name), Lower(u[j]));
      SortKeepsElements(u, StringLe, u[j]);
      assert u[j] in s;
    }
  }
}
