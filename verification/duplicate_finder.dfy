/**
 * DuplicateFinder: reads the `md5sumfiles.txt` listing of a directory (lines
 * `<md5> <path>` as md5sum writes them), groups the listed files by hash and
 * reports, among files whose hash is shared, those whose base name ends in
 * an index such as " (1)" (the copies a browser or a file manager makes).
 * The result maps each reported path to its hash.
 */
module DuplicateFinderModel {
  import opened Wrappers
  import opened JavaErrors
  import opened JavaStrings
  import opened FileSystemModel
  import opened FilenameComparator

  const Md5FileName := "md5sumfiles.txt"

  /** The regex class \s: space, tab, newline, vertical tab, form feed, carriage return. */
  predicate IsRegexSpace(c: char) {
    c == ' ' || c == '\t' || c == '\n' || c == '\U{B}' || c == '\U{C}' || c == '\r'
  }

  /** The chars the regex `.` does not match: the line terminators. */
  predicate IsLineTerminator(c: char) {
    c == '\n' || c == '\r' || c == '\U{85}' || c == '\U{2028}' || c == '\U{2029}'
  }

  predicate IsDigit(c: char) {
    '0' <= c <= '9'
  }

  /** Index of the first \s char, or |s|. */
  function FirstSpace(s: string): (k: nat)
    ensures k <= |s|
    ensures k < |s| ==> IsRegexSpace(s[k])
    ensures forall i | 0 <= i < k :: !IsRegexSpace(s[i])
  {
    if s == [] then 0
    else if IsRegexSpace(s[0]) then 0
    else 1 + FirstSpace(s[1..])
  }

  /**
   * String.split("\\s", 2): the string itself when no \s occurs, otherwise
   * the part before the first \s and everything after it.
   */
  function SplitAtSpace(s: string): (r: seq<string>)
    ensures 1 <= |r| <= 2
    ensures |r| == 1 <==> forall i | 0 <= i < |s| :: !IsRegexSpace(s[i])
    ensures |r| == 1 ==> r[0] == s
    ensures |r| == 2 ==> |r[0]| < |s| && IsRegexSpace(s[|r[0]|]) && s == r[0] + [s[|r[0]|]] + r[1]
    ensures forall i | 0 <= i < |r[0]| :: !IsRegexSpace(r[0][i])
  {
    var k := FirstSpace(s);
    if k == |s| then [s]
    else
      assert s == s[..k] + [s[k]] + s[k + 1..];
      [s[..k], s[k + 1..]]
  }

  /** One parsed line: the file (as `new File(dir + separator + rest)`) and its hash. */
  datatype FileWithHash = FileWithHash(path: Path, md5sum: string)

  /**
   * A line of the listing: trimmed and split at its first \s; a line that
   * does not give two parts is skipped.
   */
  function ParseLine(dir: Path, line: string): (r: Option<FileWithHash>)
    ensures r.None? <==> forall i | 0 <= i < |Trim(line)| :: !IsRegexSpace(Trim(line)[i])
    ensures r.Some? ==> Under(dir, r.value.path)
    ensures r.Some? ==> forall i | 0 <= i < |r.value.md5sum| :: !IsRegexSpace(r.value.md5sum[i])
  {
    var parts := SplitAtSpace(Trim(line));
    if |parts| != 2 then None
    else Some(FileWithHash(Resolve(dir, Trim(parts[1])), parts[0]))
  }

  /** The parsed lines, in file order. */
  function Parsed(dir: Path, lines: seq<string>): (r: seq<FileWithHash>)
    ensures |r| <= |lines|
  {
    if lines == [] then []
    else
      var last := ParseLine(dir, lines[|lines| - 1]);
      Parsed(dir, lines[..|lines| - 1]) + (if last.Some? then [last.value] else [])
  }

  lemma ParsedAppend(dir: Path, lines: seq<string>, line: string)
    ensures Parsed(dir, lines + [line]) ==
      Parsed(dir, lines) + (if ParseLine(dir, line).Some? then [ParseLine(dir, line).value] else [])
  {
    assert (lines + [line])[..|lines|] == lines;
  }

  lemma ParsedSnoc(dir: Path, lines: seq<string>, n: nat)
    requires n < |lines|
    ensures Parsed(dir, lines[..n + 1]) ==
      Parsed(dir, lines[..n]) + (if ParseLine(dir, lines[n]).Some? then [ParseLine(dir, lines[n]).value] else [])
  {
    assert lines[..n + 1] == lines[..n] + [lines[n]];
    ParsedAppend(dir, lines[..n], lines[n]);
  }

  /** FirstSpace is fixed by its properties. */
  lemma {:induction false} FirstSpaceAt(s: string, k: nat)
    requires k < |s| && IsRegexSpace(s[k]) && forall i | 0 <= i < k :: !IsRegexSpace(s[i])
    ensures FirstSpace(s) == k
  {
    if k > 0 {
      FirstSpaceAt(s[1..], k - 1);
    }
  }

  /** One leading blank goes under trim. */
  lemma TrimAfterBlank(name: string)
    requires name != [] && Trim(name) == name
    ensures Trim(" " + name) == name
  {
    assert (" " + name)[1..] == name;
    assert TrimStart(" " + name) == TrimStart(name);
  }

  /** A line as md5sum writes it, `<hash>  <name>`, parses back into hash and file. */
  lemma Md5sumLineParses(dir: Path, md5: string, name: string)
    requires md5 != [] && forall i | 0 <= i < |md5| :: !IsBlank(md5[i])
    requires name != [] && Trim(name) == name
    ensures ParseLine(dir, md5 + "  " + name) == Some(FileWithHash(Resolve(dir, name), md5))
  {
    var line := md5 + "  " + name;
    assert !IsBlank(name[|name| - 1]);
    assert line[0] == md5[0] && line[|line| - 1] == name[|name| - 1];
    TrimOfTrimmed(line);
    assert forall i | 0 <= i < |md5| :: line[i] == md5[i];
    FirstSpaceAt(line, |md5|);
    assert line[..|md5|] == md5;
    assert line[|md5| + 1..] == " " + name;
    TrimAfterBlank(name);
  }

  /** How many parsed lines carry hash h. */
  function Count(files: seq<FileWithHash>, h: string): (n: nat)
    ensures n <= |files|
  {
    if files == [] then 0
    else Count(files[..|files| - 1], h) + (if files[|files| - 1].md5sum == h then 1 else 0)
  }

  /** A hash counted twice is carried by two distinct lines, and conversely. */
  lemma {:induction false} CountAtLeastTwo(files: seq<FileWithHash>, h: string)
    ensures Count(files, h) >= 2 <==>
      exists i, j | 0 <= i < j < |files| :: files[i].md5sum == h && files[j].md5sum == h
  {
    if files != [] {
      var init := files[..|files| - 1];
      CountAtLeastTwo(init, h);
      CountPositive(init, h);
      if Count(files, h) >= 2 {
        if Count(init, h) >= 2 {
          var i, j :| 0 <= i < j < |init| && init[i].md5sum == h && init[j].md5sum == h;
          assert files[i] == init[i] && files[j] == init[j];
        } else {
          var i :| 0 <= i < |init| && init[i].md5sum == h;
          assert files[i] == init[i];
          assert files[i].md5sum == h && files[|files| - 1].md5sum == h;
        }
      }
      if exists i, j | 0 <= i < j < |files| :: files[i].md5sum == h && files[j].md5sum == h {
        var i, j :| 0 <= i < j < |files| && files[i].md5sum == h && files[j].md5sum == h;
        if j < |files| - 1 {
          assert init[i] == files[i] && init[j] == files[j];
        } else {
          assert init[i] == files[i];
        }
      }
    }
  }

  /** A hash is counted at least once exactly when some line carries it. */
  lemma {:induction false} CountPositive(files: seq<FileWithHash>, h: string)
    ensures Count(files, h) >= 1 <==> exists i | 0 <= i < |files| :: files[i].md5sum == h
  {
    if files != [] {
      var init := files[..|files| - 1];
      CountPositive(init, h);
      if exists i | 0 <= i < |init| :: init[i].md5sum == h {
        var i :| 0 <= i < |init| && init[i].md5sum == h;
        assert files[i] == init[i];
      }
      if exists i | 0 <= i < |files| :: files[i].md5sum == h {
        var i :| 0 <= i < |files| && files[i].md5sum == h;
        if i < |files| - 1 {
          assert init[i] == files[i];
        }
      }
    }
  }

  lemma CountAppend(files: seq<FileWithHash>, f: FileWithHash, h: string)
    ensures Count(files + [f], h) == Count(files, h) + (if f.md5sum == h then 1 else 0)
  {
    assert (files + [f])[..|files|] == files;
  }

  predicate AllDigits(s: string) {
    forall i | 0 <= i < |s| :: IsDigit(s[i])
  }

  /** The regex `(.*)\s\(\d*\)` matches b with its \s at index k. */
  predicate IndexSuffixAt(b: string, k: int)
    requires 0 <= k <= |b| - 3
  {
    && IsRegexSpace(b[k]) && b[k + 1] == '(' && b[|b| - 1] == ')'
    && AllDigits(b[k + 2..|b| - 1])
    && forall i | 0 <= i < k :: !IsLineTerminator(b[i])
  }

  /** FILE_WITH_INDEX.matcher(b).matches(): the whole of b matches `(.*)\s\(\d*\)`. */
  predicate HasIndexSuffix(b: string) {
    exists k | 0 <= k <= |b| - 3 :: IndexSuffixAt(b, k)
  }

  /** Index of the last char that is not a digit, or -1. */
  function LastNonDigit(s: string): (r: int)
    ensures -1 <= r < |s|
    ensures r >= 0 ==> !IsDigit(s[r])
    ensures forall i | r < i < |s| :: IsDigit(s[i])
  {
    if s == [] then -1
    else if !IsDigit(s[|s| - 1]) then |s| - 1
    else LastNonDigit(s[..|s| - 1])
  }

  /**
   * The regex fixes where its \s sits: right before the '(' that opens the
   * run of digits ending just before the closing ')'.
   */
  lemma IndexSuffixPosition(b: string, k: int)
    requires 0 <= k <= |b| - 3 && IndexSuffixAt(b, k)
    ensures k == LastNonDigit(b[..|b| - 1]) - 1
  {
    var s := b[..|b| - 1];
    assert s[k + 1] == '(';
    assert forall i | k + 1 < i < |s| :: s[i] == b[k + 2..|b| - 1][i - k - 2];
  }

  /**
   * A direct scan that decides the pattern: a ')' at the end, digits before
   * it, then '(' and a \s, with no line terminator further left.
   */
  predicate IndexSuffixScan(b: string) {
    && |b| >= 3 && b[|b| - 1] == ')'
    && var j := LastNonDigit(b[..|b| - 1]);
    && j >= 1 && b[j] == '(' && IsRegexSpace(b[j - 1])
    && forall i | 0 <= i < j - 1 :: !IsLineTerminator(b[i])
  }

  /** The scan and the regex agree on every name. */
  lemma IndexSuffixScanMatchesRegex(b: string)
    ensures HasIndexSuffix(b) <==> IndexSuffixScan(b)
  {
    if HasIndexSuffix(b) {
      var k :| 0 <= k <= |b| - 3 && IndexSuffixAt(b, k);
      IndexSuffixPosition(b, k);
      assert b[..|b| - 1][k + 1] == b[k + 1];
    }
    if IndexSuffixScan(b) {
      var s := b[..|b| - 1];
      var j := LastNonDigit(s);
      assert s[j] == b[j];
      assert forall i | j + 1 <= i < |b| - 1 :: s[i] == b[i];
      assert IndexSuffixAt(b, j - 1);
    }
  }

  /** How the pattern reads on typical names. */
  lemma HasIndexSuffixExamples()
    ensures HasIndexSuffix("song (1)")
    ensures HasIndexSuffix("a ()")
    ensures HasIndexSuffix(" (12)")
    ensures !HasIndexSuffix("song(1)")
    ensures !HasIndexSuffix("song (a)")
    ensures !HasIndexSuffix("song (1) ")
  {
    assert IndexSuffixAt("song (1)", 4);
    assert IndexSuffixAt("a ()", 1);
    assert IndexSuffixAt(" (12)", 0);
    IndexSuffixScanMatchesRegex("song(1)");
    assert LastNonDigit("song(1") == 4;
    IndexSuffixScanMatchesRegex("song (a)");
    assert LastNonDigit("song (a") == 6;
    var u := "song (1) ";
    assert u[|u| - 1] != ')';
  }

  /** Index of the last path separator ('/' or '\'), or -1. */
  function LastSeparator(n: string): (r: int)
    ensures -1 <= r < |n|
    ensures r >= 0 ==> n[r] == '/' || n[r] == '\\'
    ensures forall i | r < i < |n| :: n[i] != '/' && n[i] != '\\'
  {
    if n == [] then -1
    else if n[|n| - 1] == '/' || n[|n| - 1] == '\\' then |n| - 1
    else LastSeparator(n[..|n| - 1])
  }

  /**
   * FilenameUtils.getBaseName: the part after the last separator of either
   * kind, without what follows its last '.'.
   */
  function BaseName(n: string): (r: string)
    ensures '.' !in n ==> r == n[LastSeparator(n) + 1..]
  {
    var name := n[LastSeparator(n) + 1..];
    var dot := LastIndexOf(name, '.');
    if dot < 0 then name else name[..dot]
  }

  /** A name with one extension loses exactly that extension. */
  lemma BaseNameDropsExtension(base: string, ext: string)
    requires '.' !in ext && '/' !in base + ext && '\\' !in base + ext
    ensures BaseName(base + "." + ext) == base
  {
    var n := base + "." + ext;
    assert n[|base|] == '.';
    assert forall i | |base| < i < |n| :: n[i] == ext[i - |base| - 1];
    assert LastSeparator(n) == -1 by {
      forall i | 0 <= i < |n| ensures n[i] != '/' && n[i] != '\\' {
        if i < |base| {
          assert n[i] == base[i];
          assert base[i] in base + ext;
        } else if i > |base| {
          assert ext[i - |base| - 1] in base + ext;
        }
      }
    }
    assert n[0..] == n;
    assert LastIndexOf(n, '.') == |base|;
  }

  /** Line i of the parsed listing is reported: its hash is shared and its base name has an index. */
  predicate Selected(files: seq<FileWithHash>, i: int)
    requires 0 <= i < |files|
  {
    Count(files, files[i].md5sum) > 1 && HasIndexSuffix(BaseName(FileName(files[i].path)))
  }

  /** Which parsed lines are selected, line by line. */
  function Selections(files: seq<FileWithHash>): (r: seq<bool>)
    ensures |r| == |files|
    ensures forall i | 0 <= i < |files| :: r[i] == Selected(files, i)
  {
    seq(|files|, i requires 0 <= i < |files| => Selected(files, i))
  }

  /** The map holds exactly the paths of the flagged lines among the first n, each with such a line's hash. */
  ghost predicate ReportsPrefix(files: seq<FileWithHash>, flags: seq<bool>, n: int, m: map<Path, string>)
    requires 0 <= n <= |files| == |flags|
  {
    && (forall p :: p in m <==> exists i | 0 <= i < n :: files[i].path == p && flags[i])
    && (forall p | p in m :: exists i | 0 <= i < n :: files[i].path == p && flags[i] && m[p] == files[i].md5sum)
  }

  /**
   * The result the stream pipeline builds: exactly the paths of selected
   * lines, each with the hash of a selected line for that path (which of
   * them, when one path is listed under two hashes, depends on the order
   * of the HashMap of groups).
   */
  ghost predicate Reports(files: seq<FileWithHash>, m: map<Path, string>) {
    ReportsPrefix(files, Selections(files), |files|, m)
  }

  /** Every reported file shares its hash with another listed line. */
  lemma ReportedHashIsShared(files: seq<FileWithHash>, m: map<Path, string>, p: Path)
    requires Reports(files, m) && p in m
    ensures exists i, j | 0 <= i < j < |files| :: files[i].md5sum == m[p] && files[j].md5sum == m[p]
    ensures HasIndexSuffix(BaseName(FileName(p)))
  {
    var i :| 0 <= i < |files| && files[i].path == p && Selected(files, i) && m[p] == files[i].md5sum;
    CountAtLeastTwo(files, m[p]);
  }

  /** A group of at least two lines whose names all carry an index is reported whole. */
  lemma WholeGroupReported(files: seq<FileWithHash>, m: map<Path, string>, h: string)
    requires Reports(files, m)
    requires exists i, j | 0 <= i < j < |files| :: files[i].md5sum == h && files[j].md5sum == h
    requires forall i | 0 <= i < |files| && files[i].md5sum == h :: HasIndexSuffix(BaseName(FileName(files[i].path)))
    ensures forall i | 0 <= i < |files| && files[i].md5sum == h :: files[i].path in m
  {
    CountAtLeastTwo(files, h);
    forall i | 0 <= i < |files| && files[i].md5sum == h ensures files[i].path in m {
      assert Selected(files, i);
    }
  }

  /** A hash listed once is never reported, whatever the name. */
  lemma LoneHashNotReported(files: seq<FileWithHash>, m: map<Path, string>, i: int)
    requires Reports(files, m) && 0 <= i < |files|
    requires forall j | 0 <= j < |files| && j != i :: files[j].md5sum != files[i].md5sum
    ensures files[i].path in m ==> m[files[i].path] != files[i].md5sum
  {
    var h := files[i].md5sum;
    CountAtLeastTwo(files, h);
    assert Count(files, h) < 2;
  }

  /** The read loop: every line parsed in order, bad lines skipped. */
  method ReadLines(dir: Path, lines: seq<string>) returns (files: seq<FileWithHash>)
    ensures files == Parsed(dir, lines)
  {
    files := [];
    var n := 0;
    while n < |lines|
      invariant n <= |lines|
      invariant files == Parsed(dir, lines[..n])
    {
      var line := lines[n];
      ParsedSnoc(dir, lines, n);
      var entry := ParseEntry(dir, line);
      if entry.Some? {
        files := files + [entry.value];
      }
      n := n + 1;
    }
    assert lines[..|lines|] == lines;
  }

  /** One line of the read loop: "<md5> <path>" split on whitespace, anything else skipped. */
  method ParseEntry(dir: Path, line: string) returns (entry: Option<FileWithHash>)
    ensures entry == ParseLine(dir, line)
  {
    var md5AndPath := SplitAtSpace(Trim(line));
    if |md5AndPath| == 2 {
      entry := Some(FileWithHash(Resolve(dir, Trim(md5AndPath[1])), md5AndPath[0]));
    } else {
      entry := None;
    }
  }

  /** groupingBy(md5sum), kept as the size of each group. */
  method GroupSizes(files: seq<FileWithHash>) returns (sizes: map<string, nat>)
    ensures forall h :: h in sizes <==> exists i | 0 <= i < |files| :: files[i].md5sum == h
    ensures forall h | h in sizes :: sizes[h] == Count(files, h)
  {
    sizes := map[];
    for n := 0 to |files|
      invariant forall h :: h in sizes <==> exists i | 0 <= i < n :: files[i].md5sum == h
      invariant forall h | h in sizes :: sizes[h] == Count(files[..n], h)
    {
      var h := files[n].md5sum;
      assert files[..n + 1] == files[..n] + [files[n]];
      forall g ensures Count(files[..n + 1], g) == Count(files[..n], g) + (if files[n].md5sum == g then 1 else 0) {
        CountAppend(files[..n], files[n], g);
      }
      if h in sizes {
        sizes := sizes[h := sizes[h] + 1];
      } else {
        CountPositive(files[..n], h);
        sizes := sizes[h := 1];
      }
    }
    assert files[..|files|] == files;
  }

  /** Putting line n when it is flagged extends the reported prefix by one line. */
  lemma ReportsStep(files: seq<FileWithHash>, flags: seq<bool>, n: int, m: map<Path, string>)
    requires 0 <= n < |files| == |flags| && ReportsPrefix(files, flags, n, m)
    ensures ReportsPrefix(files, flags, n + 1, if flags[n] then m[files[n].path := files[n].md5sum] else m)
  {
    var m' := if flags[n] then m[files[n].path := files[n].md5sum] else m;
    forall p | p in m' ensures exists i | 0 <= i < n + 1 :: files[i].path == p && flags[i] && m'[p] == files[i].md5sum {
      if flags[n] && p == files[n].path {
        assert files[n].path == p && flags[n] && m'[p] == files[n].md5sum;
      } else {
        var i :| 0 <= i < n && files[i].path == p && flags[i] && m[p] == files[i].md5sum;
        assert m'[p] == m[p];
      }
    }
  }

  /** The groups of more than one file, filtered by name and put into the result. */
  method SelectIndexed(files: seq<FileWithHash>) returns (m: map<Path, string>)
    ensures Reports(files, m)
  {
    var sizes := GroupSizes(files);
    ghost var flags := Selections(files);
    m := map[];
    for n := 0 to |files|
      invariant ReportsPrefix(files, flags, n, m)
    {
      var file := files[n];
      assert file.md5sum in sizes;
      ReportsStep(files, flags, n, m);
      if sizes[file.md5sum] > 1 && HasIndexSuffix(BaseName(FileName(file.path))) {
        m := m[file.path := file.md5sum];
      }
    }
  }

  /**
   * execute: no listing file gives an empty result; a read failure becomes a
   * FileManagerException carrying its message; otherwise the files the
   * listing reports.  `read` is what the reader yields: the lines, or the
   * message of the IOException that stopped it.
   */
  method Execute(fs: FileSystem, dir: Path, read: Result<seq<string>, string>)
    returns (r: Result<map<Path, string>, Exception>)
    ensures !fs.Exists(Resolve(dir, Md5FileName)) ==> r == Ok(map[])
    ensures fs.Exists(Resolve(dir, Md5FileName)) && read.Err? ==> r == Err(FileManager(read.error))
    ensures fs.Exists(Resolve(dir, Md5FileName)) && read.Ok? ==>
              r.Ok? && Reports(Parsed(dir, read.value), r.value)
  {
    if !fs.Exists(Resolve(dir, Md5FileName)) {
      return Ok(map[]);
    }
    if read.Err? {
      return Err(FileManager(read.error));
    }
    var files := ReadLines(dir, read.value);
    var m := SelectIndexed(files);
    return Ok(m);
  }
}
