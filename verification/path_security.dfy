/**
 * PathSecurityService: the chain of checks every user-supplied path goes
 * through before the file manager touches it (blank, length, traversal,
 * unsafe characters, format, allowed base directories), and the list of
 * allowed base directories built once from the configuration.
 *
 * A java.nio Path is modelled as its sequence of name elements.  Resolving a
 * string (Paths.get, normalize, toAbsolutePath) depends on the platform and
 * the working directory and is a parameter: it yields the elements, or the
 * message of the InvalidPathException.
 */
module PathSecurity {
  import opened Wrappers
  import opened JavaErrors
  import opened JavaStrings

  type NioPath = seq<string>

  /** Paths.get(s).normalize().toAbsolutePath(), or the InvalidPathException message. */
  type Resolver = string -> Result<NioPath, string>

  const MaxPathLength := 4096

  /** The default of filemanager.allowed-paths. */
  const DefaultAllowedPaths := "/tmp,${user.home}"

  const BlankMessage := "Path cannot be null or empty"
  const LengthMessage := "Path exceeds maximum length of 4096 characters"
  const TraversalMessage := "Path traversal not allowed: path contains '..'"
  const UnsafeMessage := "Path contains invalid characters. Allowed: letters, numbers, -, _, /, \\"
  const FormatPrefix := "Invalid path format: "
  const DeniedMessage := "Access to path not allowed. Path must be under configured allowed directories."

  /** Character.isWhitespace: the separators but the no-break ones, and the controls 0x09-0x0D, 0x1C-0x1F. */
  predicate JavaWhitespace(c: char) {
    || '\t' <= c <= '\r' || '\U{1C}' <= c <= ' '
    || c == '\U{1680}' || ('\U{2000}' <= c <= '\U{200A}' && c != '\U{2007}')
    || c == '\U{2028}' || c == '\U{2029}' || c == '\U{205F}' || c == '\U{3000}'
  }

  /** String.isBlank: empty or whitespace only. */
  predicate BlankString(s: string) {
    forall i | 0 <= i < |s| :: JavaWhitespace(s[i])
  }

  /** A char of the class [<>:"|?*\x00-\x1F]. */
  predicate UnsafeChar(c: char) {
    c in "<>:\"|?*" || c <= '\U{1F}'
  }

  predicate HasUnsafeChar(s: string) {
    exists i | 0 <= i < |s| :: UnsafeChar(s[i])
  }

  /** One configured entry: trimmed, then ${user.home} and ${tmp} substituted, in that order. */
  function ExpandEntry(entry: string, userHome: string, tmpDir: string): string {
    ReplaceAllLiteral(ReplaceAllLiteral(Trim(entry), "${user.home}", userHome), "${tmp}", tmpDir)
  }

  /** The allowed base paths: the configuration split on ',', each entry expanded. */
  function AllowedPaths(config: string, userHome: string, tmpDir: string): (r: seq<string>)
    ensures |r| == |Split(config, ',')|
    ensures forall i | 0 <= i < |r| :: r[i] == ExpandEntry(Split(config, ',')[i], userHome, tmpDir)
  {
    var parts := Split(config, ',');
    seq(|parts|, i requires 0 <= i < |parts| => ExpandEntry(parts[i], userHome, tmpDir))
  }

  /** Path.startsWith(Path): the base's elements begin the path's. */
  predicate PathStartsWith(p: NioPath, base: NioPath) {
    |base| <= |p| && p[..|base|] == base
  }

  /** The anyMatch predicate for one base: a base that does not resolve allows nothing. */
  predicate AllowedBy(resolve: Resolver, base: string, p: NioPath) {
    resolve(base).Ok? && PathStartsWith(p, resolve(base).value)
  }

  /** allowedBasePaths.stream().anyMatch(...), in list order. */
  function AnyAllows(resolve: Resolver, bases: seq<string>, p: NioPath): (b: bool)
    ensures b <==> exists i | 0 <= i < |bases| :: AllowedBy(resolve, bases[i], p)
  {
    if bases == [] then false
    else if AllowedBy(resolve, bases[0], p) then true
    else
      var b := AnyAllows(resolve, bases[1..], p);
      assert b ==> exists i | 0 <= i < |bases| :: AllowedBy(resolve, bases[i], p) by {
        if b {
          var i :| 0 <= i < |bases[1..]| && AllowedBy(resolve, bases[1..][i], p);
          assert bases[i + 1] == bases[1..][i];
        }
      }
      assert (exists i | 0 <= i < |bases| :: AllowedBy(resolve, bases[i], p)) ==> b by {
        if exists i | 0 <= i < |bases| :: AllowedBy(resolve, bases[i], p) {
          var i :| 0 <= i < |bases| && AllowedBy(resolve, bases[i], p);
          assert i != 0;
          assert bases[1..][i - 1] == bases[i];
        }
      }
      b
  }

  /** The checks of validateAndNormalizePath before resolution, in the order they are made. */
  function PreCheck(userPath: Option<string>): Outcome<Exception> {
    if userPath.None? || BlankString(userPath.value) then Fail(IllegalArgument(BlankMessage))
    else if Utf16Length(userPath.value) > MaxPathLength then Fail(IllegalArgument(LengthMessage))
    else if Contains(userPath.value, "..") then Fail(Security(TraversalMessage))
    else if HasUnsafeChar(userPath.value) then Fail(IllegalArgument(UnsafeMessage))
    else Pass
  }

  /**
   * validateAndNormalizePath against a given list of bases: the first failing
   * check decides the exception; otherwise the resolved path.
   */
  function Validate(bases: seq<string>, userPath: Option<string>, resolve: Resolver): Result<NioPath, Exception> {
    match PreCheck(userPath)
    case Fail(e) => Err(e)
    case Pass =>
      match resolve(userPath.value)
      case Err(m) => Err(IllegalArgument(FormatPrefix + m))
      case Ok(p) => if AnyAllows(resolve, bases, p) then Ok(p) else Err(Security(DeniedMessage))
  }

  /** What a path must be to pass every check. */
  predicate Acceptable(bases: seq<string>, s: string, resolve: Resolver) {
    && !BlankString(s) && Utf16Length(s) <= MaxPathLength && !Contains(s, "..") && !HasUnsafeChar(s)
    && resolve(s).Ok?
    && exists i | 0 <= i < |bases| :: AllowedBy(resolve, bases[i], resolve(s).value)
  }

  /**
   * A path is accepted exactly when it is present, not blank, at most 4096
   * UTF-16 code units long, free of "..", free of unsafe chars, resolvable and under some
   * resolvable base; the result is then its resolved form.
   */
  lemma ValidateAcceptsExactly(bases: seq<string>, userPath: Option<string>, resolve: Resolver)
    ensures Validate(bases, userPath, resolve).Ok? <==>
      userPath.Some? && Acceptable(bases, userPath.value, resolve)
    ensures Validate(bases, userPath, resolve).Ok? ==>
      Validate(bases, userPath, resolve).value == resolve(userPath.value).value
  {
  }

  /** An accepted path lies under one of the configured bases. */
  lemma AcceptedIsUnderABase(bases: seq<string>, userPath: Option<string>, resolve: Resolver)
    requires Validate(bases, userPath, resolve).Ok?
    ensures exists i | 0 <= i < |bases| ::
      resolve(bases[i]).Ok? && PathStartsWith(Validate(bases, userPath, resolve).value, resolve(bases[i]).value)
  {
    var p := Validate(bases, userPath, resolve).value;
    var i :| 0 <= i < |bases| && AllowedBy(resolve, bases[i], p);
  }

  /** A missing or blank path is an IllegalArgumentException whatever the bases. */
  lemma BlankRejected(bases: seq<string>, userPath: Option<string>, resolve: Resolver)
    requires userPath.None? || BlankString(userPath.value)
    ensures Validate(bases, userPath, resolve) == Err(IllegalArgument(BlankMessage))
  {
  }

  /** A non-blank path over 4096 code units is rejected for its length before anything else is looked at. */
  lemma TooLongRejected(bases: seq<string>, s: string, resolve: Resolver)
    requires !BlankString(s) && Utf16Length(s) > MaxPathLength
    ensures Validate(bases, Some(s), resolve) == Err(IllegalArgument(LengthMessage))
  {
  }

  /**
   * ".." anywhere in a non-blank path of allowed length is a SecurityException,
   * even when the path also holds unsafe chars: traversal is checked first.
   */
  lemma TraversalCheckedBeforeChars(bases: seq<string>, s: string, i: nat, resolve: Resolver)
    requires !BlankString(s) && Utf16Length(s) <= MaxPathLength
    requires i + 1 < |s| && s[i] == '.' && s[i + 1] == '.'
    ensures Validate(bases, Some(s), resolve) == Err(Security(TraversalMessage))
  {
    DotsContained(s, i);
  }

  lemma DotsContained(s: string, i: nat)
    requires i + 1 < |s| && s[i] == '.' && s[i + 1] == '.'
    ensures Contains(s, "..")
  {
    assert s[i..i + 2] == "..";
    assert OccursAt(s, "..", i);
  }

  /** An unsafe char in an otherwise well-formed path is an IllegalArgumentException. */
  lemma UnsafeCharRejected(bases: seq<string>, s: string, i: nat, resolve: Resolver)
    requires !BlankString(s) && Utf16Length(s) <= MaxPathLength && !Contains(s, "..")
    requires i < |s| && UnsafeChar(s[i])
    ensures Validate(bases, Some(s), resolve) == Err(IllegalArgument(UnsafeMessage))
  {
  }

  /** A well-formed path outside every base is a SecurityException; with no bases, nothing is allowed. */
  lemma OutsideBasesDenied(bases: seq<string>, s: string, resolve: Resolver)
    requires PreCheck(Some(s)).Pass? && resolve(s).Ok?
    requires forall i | 0 <= i < |bases| :: !AllowedBy(resolve, bases[i], resolve(s).value)
    ensures Validate(bases, Some(s), resolve) == Err(Security(DeniedMessage))
  {
  }

  /** The default configuration allows /tmp and the user's home, in that order. */
  lemma DefaultBases(config: string, userHome: string, tmpDir: string)
    requires config == DefaultAllowedPaths
    requires !Contains(userHome, "${tmp}")
    ensures AllowedPaths(config, userHome, tmpDir) == ["/tmp", userHome]
  {
    var tmp, home := "/tmp", "${user.home}";
    DefaultEntries(config, tmp, home);
    TmpEntryExpands(tmp, userHome, tmpDir);
    HomeEntryExpands(home, userHome, tmpDir);
    TwoEntries(config, tmp, home, userHome, tmpDir);
  }

  /** A configuration of two entries gives their two expansions. */
  lemma TwoEntries(config: string, a: string, b: string, userHome: string, tmpDir: string)
    requires Split(config, ',') == [a, b]
    ensures AllowedPaths(config, userHome, tmpDir)
         == [ExpandEntry(a, userHome, tmpDir), ExpandEntry(b, userHome, tmpDir)]
  {
  }

  lemma DefaultEntries(config: string, tmp: string, home: string)
    requires config == DefaultAllowedPaths && tmp == "/tmp" && home == "${user.home}"
    ensures Split(config, ',') == [tmp, home]
  {
    assert config == tmp + [','] + home;
    assert ',' !in tmp && ',' !in home;
    SplitAround(tmp, home, ',');
  }

  lemma TmpEntryExpands(e: string, userHome: string, tmpDir: string)
    requires e == "/tmp"
    ensures ExpandEntry(e, userHome, tmpDir) == e
  {
    assert !IsBlank(e[0]) && !IsBlank(e[|e| - 1]);
    TrimOfTrimmed(e);
    assert !Contains(e, "${user.home}") && !Contains(e, "${tmp}");
    ReplaceAllAbsent(e, "${user.home}", userHome);
    ReplaceAllAbsent(e, "${tmp}", tmpDir);
  }

  lemma HomeEntryExpands(e: string, userHome: string, tmpDir: string)
    requires e == "${user.home}"
    requires !Contains(userHome, "${tmp}")
    ensures ExpandEntry(e, userHome, tmpDir) == userHome
  {
    assert !IsBlank(e[0]) && !IsBlank(e[|e| - 1]);
    TrimOfTrimmed(e);
    ReplaceWhole(e, userHome);
    ReplaceAllAbsent(userHome, "${tmp}", tmpDir);
  }

  /** A pattern replaced in a string equal to it gives the replacement. */
  lemma ReplaceWhole(e: string, rep: string)
    requires e != []
    ensures ReplaceAllLiteral(e, e, rep) == rep
  {
    assert e[..|e|] == e && e[|e|..] == [];
    assert ReplaceAllLiteral([], e, rep) == [];
  }

  class PathSecurityService {
    /** filemanager.allowed-paths. */
    const allowedPathsConfig: string
    /** Null until the first validation. */
    var allowedBasePaths: Option<seq<string>>

    constructor (config: string)
      ensures allowedPathsConfig == config && allowedBasePaths == None
    {
      allowedPathsConfig := config;
      allowedBasePaths := None;
    }

    /** initializeAllowedPaths: computes the list on first use and keeps it afterwards. */
    method InitializeAllowedPaths(userHome: string, tmpDir: string)
      modifies this
      ensures allowedBasePaths ==
        if old(allowedBasePaths).None? then Some(AllowedPaths(allowedPathsConfig, userHome, tmpDir))
        else old(allowedBasePaths)
    {
      if allowedBasePaths.None? {
        allowedBasePaths := Some(AllowedPaths(allowedPathsConfig, userHome, tmpDir));
      }
    }

    /** validateAndNormalizePath: initialises the bases, then runs the checks against them. */
    method ValidateAndNormalizePath(userPath: Option<string>, userHome: string, tmpDir: string, resolve: Resolver)
      returns (r: Result<NioPath, Exception>)
      modifies this
      ensures allowedBasePaths.Some?
      ensures old(allowedBasePaths).Some? ==> allowedBasePaths == old(allowedBasePaths)
      ensures old(allowedBasePaths).None? ==>
        allowedBasePaths == Some(AllowedPaths(allowedPathsConfig, userHome, tmpDir))
      ensures r == Validate(allowedBasePaths.value, userPath, resolve)
    {
      InitializeAllowedPaths(userHome, tmpDir);
      var bases := allowedBasePaths.value;
      if userPath.None? || BlankString(userPath.value) {
        return Err(IllegalArgument(BlankMessage));
      }
      var s := userPath.value;
      if Utf16Length(s) > MaxPathLength {
        return Err(IllegalArgument(LengthMessage));
      }
      if Contains(s, "..") {
        return Err(Security(TraversalMessage));
      }
      if HasUnsafeChar(s) {
        return Err(IllegalArgument(UnsafeMessage));
      }
      var normalized := resolve(s);
      if normalized.Err? {
        return Err(IllegalArgument(FormatPrefix + normalized.error));
      }
      if !AnyAllows(resolve, bases, normalized.value) {
        return Err(Security(DeniedMessage));
      }
      return Ok(normalized.value);
    }

    /** isPathValid: true exactly when validation raises nothing. */
    method IsPathValid(userPath: Option<string>, userHome: string, tmpDir: string, resolve: Resolver)
      returns (b: bool)
      modifies this
      ensures allowedBasePaths.Some?
      ensures old(allowedBasePaths).Some? ==> allowedBasePaths == old(allowedBasePaths)
      ensures old(allowedBasePaths).None? ==>
        allowedBasePaths == Some(AllowedPaths(allowedPathsConfig, userHome, tmpDir))
      ensures b <==> userPath.Some? && Acceptable(allowedBasePaths.value, userPath.value, resolve)
    {
      var r := ValidateAndNormalizePath(userPath, userHome, tmpDir, resolve);
      ValidateAcceptsExactly(allowedBasePaths.value, userPath, resolve);
      b := r.Ok?;
    }

    /**
     * getCanonicalPathString: the canonical form of the validated path, or the
     * input unchanged (null included) when validation or canonicalisation fails.
     */
    method GetCanonicalPathString(userPath: Option<string>, userHome: string, tmpDir: string, resolve: Resolver,
                                  canonical: NioPath -> Result<string, string>)
      returns (s: Option<string>)
      modifies this
      ensures allowedBasePaths.Some?
      ensures old(allowedBasePaths).Some? ==> allowedBasePaths == old(allowedBasePaths)
      ensures old(allowedBasePaths).None? ==>
        allowedBasePaths == Some(AllowedPaths(allowedPathsConfig, userHome, tmpDir))
      ensures var v := Validate(allowedBasePaths.value, userPath, resolve);
        s == if v.Ok? && canonical(v.value).Ok? then Some(canonical(v.value).value) else userPath
    {
      var r := ValidateAndNormalizePath(userPath, userHome, tmpDir, resolve);
      if r.Err? {
        return userPath;
      }
      var c := canonical(r.value);
      if c.Err? {
        return userPath;
      }
      return Some(c.value);
    }
  }
}
