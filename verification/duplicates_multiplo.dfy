/**
 * EncontrarDuplicadosMultiplo: groups of photo files sharing an MD5 sum, and
 * the staged choice of which copies of a group to delete.  Each stage marks
 * files by name and location; a stage's marks are taken when they number one
 * less than the group, otherwise the next stage runs, and the last resort
 * marks every file but the first.
 *
 * Files are their path strings.  getName is the part after the last '/', and
 * getAbsolutePath prefixes a relative path with the working directory.
 */
module DuplicatesMultiplo {
  import opened Wrappers
  import opened JavaStrings
  import opened Sorting

  const OrganizeFolder := "fotos_organizar"

  /** File.getName. */
  function Name(f: string): string {
    f[LastIndexOf(f, '/') + 1..]
  }

  /** File.getAbsolutePath. */
  function AbsolutePath(cwd: string, f: string): string {
    if StartsWith(f, "/") then f else cwd + "/" + f
  }

  /** StringUtils.containsIgnoreCase, on the ASCII case mapping of the model. */
  predicate ContainsIgnoreCase(s: string, p: string) {
    Contains(Lower(s), Lower(p))
  }

  /** The name mentions HEIC in any case. */
  predicate HeicName(f: string) {
    ContainsIgnoreCase(Name(f), "heic")
  }

  /** The name does not start with IMG (not a camera name). */
  predicate NotCameraName(f: string) {
    !StartsWith(Name(f), "IMG")
  }

  /** The absolute path goes through the folder of photos still to organise. */
  predicate InOrganizeFolder(cwd: string, f: string) {
    Contains(AbsolutePath(cwd, f), OrganizeFolder)
  }

  /** The name itself mentions that folder. */
  predicate NamesOrganizeFolder(f: string) {
    Contains(Name(f), OrganizeFolder)
  }

  /** The marks one file gets in a stage: once per condition that holds, in the order checked. */
  function Marks(stage: nat, cwd: string, f: string): (m: seq<string>)
    ensures forall x | x in m :: x == f
  {
    if stage == 1 then
      (if HeicName(f) then [f] else [])
      + (if NotCameraName(f) then [f] else [])
      + (if InOrganizeFolder(cwd, f) then [f] else [])
    else if stage == 2 then
      (if NotCameraName(f) then [f] else [])
      + (if NamesOrganizeFolder(f) then [f] else [])
    else
      (if NamesOrganizeFolder(f) then [f] else [])
  }

  /** The list a stage builds over the group, file by file. */
  function Marked(stage: nat, cwd: string, files: seq<string>): (m: seq<string>)
    ensures forall x | x in m :: x in files
  {
    if files == [] then []
    else
      var init := files[..|files| - 1];
      assert files == init + [files[|files| - 1]];
      Marked(stage, cwd, init) + Marks(stage, cwd, files[|files| - 1])
  }

  /** The last resort: every file but the first. */
  function AllButFirst(files: seq<string>): (m: seq<string>)
    ensures |m| == if files == [] then 0 else |files| - 1
    ensures forall i | 0 <= i < |m| :: m[i] == files[i + 1]
  {
    if files == [] then [] else files[1..]
  }

  /** The files removeDuplicates deletes: the first stage with one mark less than the group, else the last resort. */
  function Removal(cwd: string, files: seq<string>): seq<string> {
    var wanted := |files| - 1;
    if |Marked(1, cwd, files)| == wanted then Marked(1, cwd, files)
    else if |Marked(2, cwd, files)| == wanted then Marked(2, cwd, files)
    else if |Marked(3, cwd, files)| == wanted then Marked(3, cwd, files)
    else AllButFirst(files)
  }

  /** The removal list always has one entry less than the group (none for an empty group), all from the group. */
  lemma RemovalSize(cwd: string, files: seq<string>)
    ensures files != [] ==> |Removal(cwd, files)| == |files| - 1
    ensures files == [] ==> Removal(cwd, files) == []
    ensures forall x | x in Removal(cwd, files) :: x in files
  {
    forall x | x in AllButFirst(files) ensures x in files {
      var i :| 0 <= i < |AllButFirst(files)| && AllButFirst(files)[i] == x;
      assert files[i + 1] == x;
    }
  }

  /** How many files of the group the removal list leaves alone. */
  function CountKept(files: seq<string>, removal: seq<string>): (n: nat)
    ensures n <= |files|
  {
    if files == [] then 0
    else CountKept(files[..|files| - 1], removal) + (if files[|files| - 1] in removal then 0 else 1)
  }

  /**
   * As written, a file that meets several stage-1 conditions is marked once
   * per condition, so the size test can pass with fewer distinct files than
   * intended: in a group of four where stage 1 marks the first file three
   * times and no other, the list is three entries long but names one file,
   * and three copies survive.
   */
  lemma RepeatedMarksKeepSeveral(cwd: string, f0: string, f1: string, f2: string, f3: string)
    requires Marks(1, cwd, f0) == [f0, f0, f0]
    requires Marks(1, cwd, f1) == [] && Marks(1, cwd, f2) == [] && Marks(1, cwd, f3) == []
    requires f0 != f1 && f0 != f2 && f0 != f3
    ensures Removal(cwd, [f0, f1, f2, f3]) == [f0, f0, f0]
    ensures CountKept([f0, f1, f2, f3], Removal(cwd, [f0, f1, f2, f3])) == 3
  {
    OnlyFirstOfFour(1, cwd, f0, f1, f2, f3);
    StageOneTaken(cwd, [f0, f1, f2, f3]);
    KeptOfFour(f0, f1, f2, f3);
  }

  /**
   * A group that meets the conditions above: a HEIC photo inside the organise
   * folder and three distinct camera files elsewhere.
   */
  lemma ExampleGroupMarks(cwd: string, f0: string, f1: string, f2: string, f3: string)
    requires f0 == "/fotos_organizar/a.heic"
    requires f1 == "/a/IMG" && f2 == "/b/IMG" && f3 == "/c/IMG"
    ensures Distinct([f0, f1, f2, f3])
    ensures Marks(1, cwd, f0) == [f0, f0, f0]
    ensures Marks(1, cwd, f1) == [] && Marks(1, cwd, f2) == [] && Marks(1, cwd, f3) == []
  {
    ExampleDistinct(f0, f1, f2, f3);
    FirstFileMarkedThrice(cwd, f0);
    CameraNameMarksNothing(cwd, 'a', f1);
    CameraNameMarksNothing(cwd, 'b', f2);
    CameraNameMarksNothing(cwd, 'c', f3);
  }

  lemma ExampleDistinct(f0: string, f1: string, f2: string, f3: string)
    requires f0 == "/fotos_organizar/a.heic"
    requires f1 == "/a/IMG" && f2 == "/b/IMG" && f3 == "/c/IMG"
    ensures Distinct([f0, f1, f2, f3])
  {
    assert f1[1] != f2[1] && f1[1] != f3[1] && f2[1] != f3[1];
    assert |f0| != |f1| && |f0| != |f2| && |f0| != |f3|;
  }

  /** A stage that marks none of the last three of four files keeps only the first file's marks. */
  lemma OnlyFirstOfFour(stage: nat, cwd: string, f0: string, f1: string, f2: string, f3: string)
    requires Marks(stage, cwd, f1) == [] && Marks(stage, cwd, f2) == [] && Marks(stage, cwd, f3) == []
    ensures Marked(stage, cwd, [f0, f1, f2, f3]) == Marks(stage, cwd, f0)
  {
    var s1 := [f0];
    var s2 := s1 + [f1];
    var s3 := s2 + [f2];
    assert s3 + [f3] == [f0, f1, f2, f3];
    assert s1[..0] == [];
    MarkedSilentSnoc(stage, cwd, s1, f1);
    MarkedSilentSnoc(stage, cwd, s2, f2);
    MarkedSilentSnoc(stage, cwd, s3, f3);
  }

  /** A file the stage does not mark leaves the list as it was. */
  lemma MarkedSilentSnoc(stage: nat, cwd: string, init: seq<string>, f: string)
    requires Marks(stage, cwd, f) == []
    ensures Marked(stage, cwd, init + [f]) == Marked(stage, cwd, init)
  {
    MarkedSnoc(stage, cwd, init, f);
  }

  /** Stage 1 is taken when it marks one entry less than the group. */
  lemma StageOneTaken(cwd: string, files: seq<string>)
    requires |Marked(1, cwd, files)| == |files| - 1
    ensures Removal(cwd, files) == Marked(1, cwd, files)
  {
  }

  /** Removing three copies of the first of four distinct files keeps the other three. */
  lemma KeptOfFour(f0: string, f1: string, f2: string, f3: string)
    requires f0 != f1 && f0 != f2 && f0 != f3
    ensures CountKept([f0, f1, f2, f3], [f0, f0, f0]) == 3
  {
    var removal := [f0, f0, f0];
    assert f0 in removal && f1 !in removal && f2 !in removal && f3 !in removal;
    CountKeptSnoc([], f0, removal);
    assert [] + [f0] == [f0];
    CountKeptSnoc([f0], f1, removal);
    assert [f0] + [f1] == [f0, f1];
    CountKeptSnoc([f0, f1], f2, removal);
    assert [f0, f1] + [f2] == [f0, f1, f2];
    CountKeptSnoc([f0, f1, f2], f3, removal);
    assert [f0, f1, f2] + [f3] == [f0, f1, f2, f3];
  }

  lemma CountKeptSnoc(init: seq<string>, f: string, removal: seq<string>)
    ensures CountKept(init + [f], removal) == CountKept(init, removal) + (if f in removal then 0 else 1)
  {
    assert (init + [f])[..|init|] == init;
  }

  lemma MarkedSnoc(stage: nat, cwd: string, init: seq<string>, f: string)
    ensures Marked(stage, cwd, init + [f]) == Marked(stage, cwd, init) + Marks(stage, cwd, f)
  {
    var files := init + [f];
    assert files != [] && |files| - 1 == |init|;
    assert files[..|init|] == init;
    assert files[|init|] == f;
  }

  /** The name of dir/n is n. */
  lemma NameOfJoin(dir: string, n: string)
    requires '/' !in n
    ensures Name(dir + "/" + n) == n
  {
    var f := dir + "/" + n;
    assert f[|dir|] == '/';
    assert forall i | |dir| < i < |f| :: f[i] == n[i - |dir| - 1];
    assert f[|dir| + 1..] == n;
  }

  /** The HEIC file in the organise folder meets all three stage-1 conditions. */
  lemma FirstFileMarkedThrice(cwd: string, f0: string)
    requires f0 == "/fotos_organizar/a.heic"
    ensures Marks(1, cwd, f0) == [f0, f0, f0]
  {
    assert f0 == "/fotos_organizar" + "/" + "a.heic";
    NameOfJoin("/fotos_organizar", "a.heic");
    ExampleNameIsHeic();
    assert NotCameraName(f0) by {
      assert Name(f0)[0] == 'a';
    }
    ExamplePathInOrganizeFolder(cwd);
  }

  lemma ExampleNameIsHeic()
    ensures ContainsIgnoreCase("a.heic", "heic")
  {
    assert Lower("a.heic") == "a.heic";
    assert Lower("heic") == "heic";
    assert OccursAt("a.heic", "heic", 2);
  }

  lemma ExamplePathInOrganizeFolder(cwd: string)
    ensures InOrganizeFolder(cwd, "/fotos_organizar/a.heic")
  {
    var f0 := "/fotos_organizar/a.heic";
    assert StartsWith(f0, "/");
    assert f0 == "/" + OrganizeFolder + "/a.heic";
    assert f0[1..16] == OrganizeFolder;
    assert OccursAt(f0, OrganizeFolder, 1);
  }

  /** A short absolute path named IMG gets no stage-1 mark. */
  lemma CameraNameMarksNothing(cwd: string, d: char, f: string)
    requires f == ['/', d, '/', 'I', 'M', 'G'] && d != '/'
    ensures Marks(1, cwd, f) == []
  {
    assert f == f[..2] + "/" + "IMG";
    NameOfJoin(f[..2], "IMG");
    assert Lower("IMG") == "img";
  }

  // The evidently intended choice: each file marked at most once per stage.

  /** Whether a stage marks a file (any of its conditions). */
  predicate Hit(stage: nat, cwd: string, f: string) {
    Marks(stage, cwd, f) != []
  }

  /** The files a stage marks, each once, in group order. */
  function Chosen(stage: nat, cwd: string, files: seq<string>): (m: seq<string>)
    ensures forall x :: x in m <==> x in files && Hit(stage, cwd, x)
  {
    if files == [] then []
    else
      var init := files[..|files| - 1];
      var f := files[|files| - 1];
      assert files == init + [f];
      Chosen(stage, cwd, init) + (if Hit(stage, cwd, f) then [f] else [])
  }

  /** The removal list with every stage marking a file at most once. */
  function IntendedRemoval(cwd: string, files: seq<string>): seq<string> {
    var wanted := |files| - 1;
    if |Chosen(1, cwd, files)| == wanted then Chosen(1, cwd, files)
    else if |Chosen(2, cwd, files)| == wanted then Chosen(2, cwd, files)
    else if |Chosen(3, cwd, files)| == wanted then Chosen(3, cwd, files)
    else AllButFirst(files)
  }

  /** A file of a distinct group is kept by a stage's choice exactly when the stage does not mark it. */
  lemma {:induction false} ChosenKeepsUnmarked(stage: nat, cwd: string, files: seq<string>)
    ensures CountKept(files, Chosen(stage, cwd, files)) == |files| - |Chosen(stage, cwd, files)|
  {
    if files != [] {
      var init := files[..|files| - 1];
      var f := files[|files| - 1];
      ChosenKeepsUnmarked(stage, cwd, init);
      CountKeptIgnoresOthers(init, Chosen(stage, cwd, init), Chosen(stage, cwd, files));
    }
  }

  /** Only membership in the removal list matters to the count. */
  lemma {:induction false} CountKeptIgnoresOthers(files: seq<string>, r1: seq<string>, r2: seq<string>)
    requires forall x | x in files :: (x in r1 <==> x in r2)
    ensures CountKept(files, r1) == CountKept(files, r2)
  {
    if files != [] {
      CountKeptIgnoresOthers(files[..|files| - 1], r1, r2);
      assert files[|files| - 1] in files;
    }
  }

  /** Dropping the first file of a distinct group keeps that file alone. */
  lemma {:induction false} AllButFirstKeepsFirst(files: seq<string>)
    requires Distinct(files) && files != []
    ensures CountKept(files, AllButFirst(files)) == 1
  {
    if |files| == 1 {
      assert files[..0] == [];
    } else {
      var init := files[..|files| - 1];
      assert files[|files| - 1] in AllButFirst(files);
      CountKeptPrefix(files, |files| - 1);
    }
  }

  /** Every file of a distinct group after the first is in the tail, so only the first counts. */
  lemma {:induction false} CountKeptPrefix(files: seq<string>, n: nat)
    requires Distinct(files) && 1 <= n <= |files|
    ensures CountKept(files[..n], AllButFirst(files)) == 1
  {
    if n == 1 {
      assert files[..1][..0] == [];
      assert forall k | 0 <= k < |files[1..]| :: files[1..][k] == files[k + 1] && files[k + 1] != files[0];
    } else {
      CountKeptPrefix(files, n - 1);
      assert files[..n][..n - 1] == files[..n - 1];
      assert files[n - 1] == AllButFirst(files)[n - 2];
    }
  }

  /**
   * With each file marked at most once per stage, removeDuplicates deletes all
   * but exactly one file of every distinct group.
   */
  lemma IntendedRemovalKeepsOne(cwd: string, files: seq<string>)
    requires Distinct(files) && files != []
    ensures CountKept(files, IntendedRemoval(cwd, files)) == 1
  {
    var wanted := |files| - 1;
    if |Chosen(1, cwd, files)| == wanted {
      ChosenKeepsUnmarked(1, cwd, files);
    } else if |Chosen(2, cwd, files)| == wanted {
      ChosenKeepsUnmarked(2, cwd, files);
    } else if |Chosen(3, cwd, files)| == wanted {
      ChosenKeepsUnmarked(3, cwd, files);
    } else {
      AllButFirstKeepsFirst(files);
    }
  }

  /** The body of one stage's forEach: the tests of the stage on one file, each adding it once. */
  method MarkFile(stage: nat, cwd: string, file: string, marked: seq<string>) returns (toBeRemoved: seq<string>)
    ensures toBeRemoved == marked + Marks(stage, cwd, file)
  {
    toBeRemoved := marked;
    if stage == 1 {
      if HeicName(file) {
        toBeRemoved := toBeRemoved + [file];
      }
      if NotCameraName(file) {
        toBeRemoved := toBeRemoved + [file];
      }
      if InOrganizeFolder(cwd, file) {
        toBeRemoved := toBeRemoved + [file];
      }
    } else if stage == 2 {
      if NotCameraName(file) {
        toBeRemoved := toBeRemoved + [file];
      }
      if NamesOrganizeFolder(file) {
        toBeRemoved := toBeRemoved + [file];
      }
    } else {
      if NamesOrganizeFolder(file) {
        toBeRemoved := toBeRemoved + [file];
      }
    }
  }

  /** One group of files sharing an MD5 sum, as read from the database. */
  class FileGroupByMd5 {
    var md5Sum: string
    var files: seq<string>

    /** The aggregated paths may be null, which gives an empty group. */
    constructor (md5Sum: string, paths: Option<seq<string>>)
      ensures this.md5Sum == md5Sum
      ensures files == if paths.Some? then paths.value else []
    {
      this.md5Sum := md5Sum;
      files := if paths.Some? then paths.value else [];
    }

    /** One stage's forEach over the group. */
    method MarkStage(stage: nat, cwd: string) returns (toBeRemoved: seq<string>)
      ensures toBeRemoved == Marked(stage, cwd, files)
    {
      toBeRemoved := [];
      for n := 0 to |files|
        invariant toBeRemoved == Marked(stage, cwd, files[..n])
      {
        assert files[..n + 1][..n] == files[..n];
        toBeRemoved := MarkFile(stage, cwd, files[n], toBeRemoved);
      }
      assert files[..|files|] == files;
    }

    /** The last-resort loop: files 1 to size-1. */
    method AllButFirstLoop() returns (toBeRemoved: seq<string>)
      ensures toBeRemoved == AllButFirst(files)
    {
      toBeRemoved := [];
      var i := 1;
      while i < |files|
        invariant 1 <= i && (files != [] ==> i <= |files| && toBeRemoved == files[1..i])
        invariant files == [] ==> toBeRemoved == []
      {
        toBeRemoved := toBeRemoved + [files[i]];
        i := i + 1;
      }
    }

    /**
     * removeDuplicates up to the deletions: the list of files it deletes,
     * one entry less than the group.
     */
    method RemoveDuplicates(cwd: string) returns (toBeRemoved: seq<string>)
      ensures toBeRemoved == Removal(cwd, files)
      ensures files != [] ==> |toBeRemoved| == |files| - 1
      ensures forall x | x in toBeRemoved :: x in files
    {
      toBeRemoved := MarkStage(1, cwd);
      var choicesDone := |toBeRemoved| == |files| - 1;
      if !choicesDone {
        toBeRemoved := MarkStage(2, cwd);
      }
      choicesDone := |toBeRemoved| == |files| - 1;
      if !choicesDone {
        toBeRemoved := MarkStage(3, cwd);
      }
      choicesDone := |toBeRemoved| == |files| - 1;
      if !choicesDone {
        toBeRemoved := AllButFirstLoop();
      }
      RemovalSize(cwd, files);
    }
  }

  /** getMd5DuplicatedFiles: only the groups with more than one file, in query order. */
  function DuplicatedGroups(groups: seq<FileGroupByMd5>): (r: seq<FileGroupByMd5>)
    reads set i | 0 <= i < |groups| :: groups[i]
    ensures forall i | 0 <= i < |r| :: r[i] in groups && |r[i].files| > 1
    ensures forall i | 0 <= i < |groups| && |groups[i].files| > 1 :: groups[i] in r
  {
    if groups == [] then []
    else
      var init := groups[..|groups| - 1];
      var g := groups[|groups| - 1];
      assert groups == init + [g];
      DuplicatedGroups(init) + (if |g.files| > 1 then [g] else [])
  }
}
