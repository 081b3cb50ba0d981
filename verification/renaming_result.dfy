/**
 * RenamingResult, the record a renaming run fills, and what a run is given
 * from outside: the noise catalog, the bundle text of each extension, the
 * two text-library functions and the clock value.
 */
module RenamingResultModel {
  import opened Wrappers
  import opened JavaStrings
  import opened FileSystemModel
  import opened Extensoes
  import opened DiretorioModel

  /**
   * catalog: the STRINGSTOFILTER entries in enumeration order; text: the
   * bundle text of each Extensao; unescapeXml and capitalizeFully stand for
   * StringEscapeUtils.unescapeXml and WordUtils.capitalizeFully; millis is
   * System.currentTimeMillis, read as one value for the whole run.
   */
  datatype RenameContext = RenameContext(
    catalog: seq<string>,
    text: Extensao -> string,
    unescapeXml: string -> string,
    capitalizeFully: string -> string,
    millis: nat)

  class RenamingResult {
    /** new path -> path it had before. */
    var renamedFiles: map<Path, Path>
    /** Never filled by the renaming run. */
    const duplicatedFiles: map<Path, Path>
    /** The directory the run was started on; None stands for Java's null. */
    const currentDirectory: Option<Diretorio>

    constructor (currentDirectory: Option<Diretorio>)
      ensures renamedFiles == map[] && duplicatedFiles == map[]
      ensures this.currentDirectory == currentDirectory
    {
      this.currentDirectory := currentDirectory;
      renamedFiles := map[];
      duplicatedFiles := map[];
    }
  }

  /** A name found, with exact case, in the snapshot gets "(<millis>) " in front. */
  function WithCollisionPrefix(name: string, snapshot: seq<string>, millis: nat): string {
    if name in snapshot then "(" + NatToString(millis) + ") " + name else name
  }

  /**
   * The prefix is added exactly when the name is in the snapshot; the name
   * always ends the result, and a prefixed name starts with '('.
   */
  lemma CollisionPrefixKeepsName(name: string, snapshot: seq<string>, millis: nat)
    ensures var r := WithCollisionPrefix(name, snapshot, millis);
      && EndsWith(r, name)
      && (r == name <==> name !in snapshot)
      && (name in snapshot ==> r[0] == '(' && |r| > |name| + 3)
  {
    var r := WithCollisionPrefix(name, snapshot, millis);
    if name in snapshot {
      var prefix := "(" + NatToString(millis) + ") ";
      assert r == prefix + name;
      assert r[|r| - |name|..] == name;
    } else {
      assert r[|r| - |name|..] == name;
    }
  }
}
