# file-manager core, modelled in Dafny

A model of the core of joao-borges/file-manager, a desktop and web tool that
renames, organises and de-duplicates the files of a directory.

What the model covers:

- **Names and extensions.** `Utilitario` splits a file name at its last dot and finds the space-bounded block around a character. `Extensao` is the catalogue of known extensions, each with a `FileType`. `FiltroExtensoes` is the extension filter a listing uses. `FiltroExtensoesFilechooser`, the file-chooser subclass, additionally accepts every directory. `FilenameComparator` (`ORDEM_NOME`) orders files by name, ignoring case.
- **Directories.** `Diretorio` is a directory: its content snapshot, its filtered listing, its recursive listing and its name list.
- **Renaming** (`Renomeador`). The operation walks a directory's listing in order. It descends into every listed sub-directory and builds a new name for every listed file:
  - the name is lower-cased; every '+' and every entry of the noise catalogue becomes a space; leading non-letters are stripped (`processNumbers`);
  - the AUDIO post-processor's artist - title rule is applied (`AudioPostProcessor.processFileName`), and the result is title-cased;
  - the file is renamed when the name changed, with a "(millis) " prefix when the name is in the directory's snapshot, and the new path -> old path pair is recorded in `RenamingResult`;
  - the post-processor then renames the file from its audio tag, or writes the tag from the name;
  - a sub-directory that cannot be read ends the whole walk with a NullPointerException.
  
  `ExclusionManagerService` holds the words that must not be split or stripped. `RenamingOperations.doReplaceAll` replaces characters outside those words.
- **Organising** (`Organizador`). The accepted files of a directory are moved into one folder per initial character under a destination (`dest/<char>/<name>`); initials are compared ignoring case.
- **Finding duplicates:**
  - `DuplicateFinder` reads the `md5sumfiles.txt` listing of a directory, groups its lines by hash and reports the indexed copies (" (1)") among files that share a hash;
  - the md5-group clean-up script `EncontrarDuplicadosMultiplo` decides which copies of a group to delete.
- **REST layer:**
  - `PathSecurityService` expands and checks the allowed base paths and validates a requested path;
  - `FileSystemController.listDirectory` validates the requested path (the user's home when none is given) and lists the directory for the browser.
- **`FileInfo`.** The row of the renaming result, and its ordering.

Methods that change state are imperative: they update classes whose fields the source updates (`FileSystem`, `Diretorio`, `RenamingResult`, `FiltroExtensoes`, the services). Each method that renames, moves or lists is proved against a function of the old state. Examples: `RenameFileEffect` for one file, `WalkEffect` for a whole directory walk, `AcceptedListing` for a listing. The pure rules are functions, and lemmas prove their properties.

The filesystem is a map from paths (component sequences) to nodes. `File.renameTo` behaves as rename(2), and `mkdirs` as mkdir(2), including their need for writable parent directories. `File.listFiles` returns null for a directory that cannot be read. Its order is the platform's: a fixed function of the tree (`FileSystem.lister`) that lists each child exactly once. Audio tags are part of a node's content.

## Model

| member | source | states |
|---|---|---|
| Utilitario.SplitExtension | src/main/java/br/com/joaoborges/filemanager/operations/Utilitario.java:27-33 | succeeds exactly when the name contains a '.', otherwise the StringIndexOutOfBounds error; on success base + "." + ext gives the name back and ext holds no '.', so the split is at the last dot |
| Utilitario.SplitExtensionOfJoin | src/main/java/br/com/joaoborges/filemanager/operations/Utilitario.java:27-33 | splitting base + "." + ext, for a dot-free ext, gives back exactly base and ext |
| Utilitario.SpaceAtOrBefore | src/main/java/br/com/joaoborges/filemanager/operations/Utilitario.java:36-44 | the left scan stops at the last space at or before j, or gives -1; no space lies between that point and j |
| Utilitario.SpaceAtOrAfter | src/main/java/br/com/joaoborges/filemanager/operations/Utilitario.java:37-50 | the right scan stops at the first space at or after k, or gives the length; no space lies between k and that point |
| Utilitario.BlockIsMaximalRun | src/main/java/br/com/joaoborges/filemanager/operations/Utilitario.java:35-54 | the block behind position i is the maximal space-free run around i: it is bounded by a space or an end of the string on both sides |
| Utilitario.BlockHasNoSpace | src/main/java/br/com/joaoborges/filemanager/operations/Utilitario.java:52-53 | the block contains no space and does contain the char at i |
| Utilitario.GetBlockBehindChar | src/main/java/br/com/joaoborges/filemanager/operations/Utilitario.java:35-54 | the two scanning loops return exactly the maximal space-free block around i |
| FilenameComparator.Compare | src/main/java/br/com/joaoborges/filemanager/model/FilenameComparator.java:16-19 | ORDEM_NOME: compareTo of the two lowercased file names |
| FilenameComparator.CompareZeroIffSameNameIgnoringCase | src/main/java/br/com/joaoborges/filemanager/model/FilenameComparator.java:16-19 | ORDEM_NOME gives 0 exactly when the two file names are equal ignoring case |
| FilenameComparator.CompareReflexive | src/main/java/br/com/joaoborges/filemanager/model/FilenameComparator.java:16-19 | every file compares equal to itself |
| FilenameComparator.CaseOnlyDifferenceIsEqual | src/main/java/br/com/joaoborges/filemanager/model/FilenameComparator.java:16-19 | two files in one folder whose names differ only in case compare as 0 |
| FilenameComparator.CompareAntisymmetricSign | src/main/java/br/com/joaoborges/filemanager/model/FilenameComparator.java:16-19 | swapping the arguments negates the result |
| FilenameComparator.CompareTransitiveOnPaths | src/main/java/br/com/joaoborges/filemanager/model/FilenameComparator.java:16-19 | the order is transitive |
| FilenameComparator.CompareStrictTransitive | src/main/java/br/com/joaoborges/filemanager/model/FilenameComparator.java:16-19 | a file strictly below b stays strictly below every c that b is not above |
| FilenameComparator.NameLeIsTotalPreorder | src/main/java/br/com/joaoborges/filemanager/model/FilenameComparator.java:13-21 | ORDEM_NOME is a total preorder, so sorting a listing by it is well defined up to ties |
| FileInfoModel.FileInfo.constructor | src/main/java/br/com/joaoborges/filemanager/ui/utils/FileInfo.java:20-25 | the row holds the three given fields |
| FileInfoModel.FileInfo.SetOriginalName | src/main/java/br/com/joaoborges/filemanager/ui/utils/FileInfo.java:31-33 | sets the original name and leaves the other fields alone |
| FileInfoModel.FileInfo.SetNewName | src/main/java/br/com/joaoborges/filemanager/ui/utils/FileInfo.java:39-41 | sets the new name and leaves the other fields alone |
| FileInfoModel.FileInfo.SetSize | src/main/java/br/com/joaoborges/filemanager/ui/utils/FileInfo.java:47-49 | sets the size and leaves the other fields alone |
| FileInfoModel.FileInfo.CompareTo | src/main/java/br/com/joaoborges/filemanager/ui/utils/FileInfo.java:51-60 | rows with different new names are ordered by the new name alone; on equal new names, by original name; on both equal, by size |
| FileInfoModel.CompareToZeroIffSameFields | src/main/java/br/com/joaoborges/filemanager/ui/utils/FileInfo.java:51-60 | compareTo gives 0 exactly when all three fields are equal |
| FileInfoModel.CompareToAntisymmetric | src/main/java/br/com/joaoborges/filemanager/ui/utils/FileInfo.java:51-60 | swapping the rows negates the result |
| FileInfoModel.CompareToTransitive | src/main/java/br/com/joaoborges/filemanager/ui/utils/FileInfo.java:51-60 | the row order is transitive, so sorting the report is well defined |
| Exclusions.MergedAppend | src/main/java/br/com/joaoborges/filemanager/operations/renaming/ExclusionManagerService.java:48-65 | loading resources a and then b gives a's entries followed by b's |
| Exclusions.MergedMembership | src/main/java/br/com/joaoborges/filemanager/operations/renaming/ExclusionManagerService.java:48-65 | an entry is loaded exactly when some exclusions.xml resource that holds a list names it |
| Exclusions.ExclusionManagerService.constructor | src/main/java/br/com/joaoborges/filemanager/operations/renaming/ExclusionManagerService.java:32-33 | the service starts with no exclusions |
| Exclusions.ExclusionManagerService.AfterPropertiesSet | src/main/java/br/com/joaoborges/filemanager/operations/renaming/ExclusionManagerService.java:35-66 | the list becomes the entries of every resource in resource order; resources without a list add nothing |
| Exclusions.ExclusionManagerService.HasExclusionFor | src/main/java/br/com/joaoborges/filemanager/operations/renaming/ExclusionManagerService.java:68-76 | true exactly when some entry equals the fragment ignoring case or, in part mode, occurs in the fragment once lowercased |
| Exclusions.HasExclusion | src/main/java/br/com/joaoborges/filemanager/operations/renaming/ExclusionManagerService.java:68-76 | some entry equals the fragment ignoring case or, in part mode, occurs in the fragment once lowercased |
| Exclusions.EqualityModeImpliesPartMode | src/main/java/br/com/joaoborges/filemanager/operations/renaming/ExclusionManagerService.java:68-76 | a fragment excluded in equality mode is excluded in part mode too |
| Exclusions.NothingExcludedByEmptyList | src/main/java/br/com/joaoborges/filemanager/operations/renaming/ExclusionManagerService.java:68-76 | an empty list excludes nothing |
| Exclusions.EqualityModeIgnoresCase | src/main/java/br/com/joaoborges/filemanager/operations/renaming/ExclusionManagerService.java:70 | in equality mode the fragment's case does not matter |
| Exclusions.HasExclusionOfConcat | src/main/java/br/com/joaoborges/filemanager/operations/renaming/ExclusionManagerService.java:68-76 | the entries of two resources together exclude a fragment exactly when either part excludes it |
| Exclusions.PartModeIsCaseSensitiveOnFragment | src/main/java/br/com/joaoborges/filemanager/operations/renaming/ExclusionManagerService.java:70 | part mode lowercases only the entry: "xab" contains the entry "AB" but "xAB" does not |
| RenamingOperations.ReplaceFromOnlyReplacesTarget | src/main/java/br/com/joaoborges/filemanager/operations/renaming/RenamingOperations.java:30-41 | the result keeps every char other than the target, in order; each target is either kept or replaced by the substitute |
| RenamingOperations.OneCharSubstituteKeepsLength | src/main/java/br/com/joaoborges/filemanager/operations/renaming/RenamingOperations.java:35-36 | with a one-char substitute the length does not change |
| RenamingOperations.NoTargetNoChange | src/main/java/br/com/joaoborges/filemanager/operations/renaming/RenamingOperations.java:31-39 | a string without the target comes out unchanged |
| RenamingOperations.EmptyEntryKeepsEverything | src/main/java/br/com/joaoborges/filemanager/operations/renaming/RenamingOperations.java:33-37 | an empty exclusion entry occurs in every block, so nothing is replaced |
| RenamingOperations.RemovalSkipsShiftedChar | src/main/java/br/com/joaoborges/filemanager/operations/renaming/RenamingOperations.java:31-36 | the index advances after a removal, so "a--b" with "-" removed becomes "a-b" |
| RenamingOperations.RenamingOperations.constructor | src/main/java/br/com/joaoborges/filemanager/operations/renaming/RenamingOperations.java:27-28 | the operations use the given exclusion service |
| RenamingOperations.RenamingOperations.DoReplaceAll | src/main/java/br/com/joaoborges/filemanager/operations/renaming/RenamingOperations.java:30-41 | the loop computes the left-to-right replacement that spares targets inside excluded blocks, and the result only replaces targets |
| Filtro.AddingExtensionKeepsAccepted | src/main/java/br/com/joaoborges/filemanager/model/FiltroExtensoes.java:85-89 | adding an extension never rejects a name that was accepted |
| Filtro.AddedExtensionAccepted | src/main/java/br/com/joaoborges/filemanager/model/FiltroExtensoes.java:85-89 | a name ending with the added extension, in any case, is accepted afterwards |
| Filtro.AcceptsNameIgnoresCase | src/main/java/br/com/joaoborges/filemanager/model/FiltroExtensoes.java:59-64 | the name test ignores the case of the name |
| Filtro.ConstantOf | src/main/java/br/com/joaoborges/filemanager/model/FiltroExtensoes.java:94 | valueOf succeeds exactly when some constant is named by the upper-cased extension, and then returns that constant |
| Filtro.FiltroExtensoes.constructor | src/main/java/br/com/joaoborges/filemanager/model/FiltroExtensoes.java:41-47 | a filter over the given non-empty list, without description, rejecting directories |
| Filtro.NewFiltroExtensoes | src/main/java/br/com/joaoborges/filemanager/model/FiltroExtensoes.java:41-47 | UnsupportedOperation exactly when the list is missing or empty; otherwise a fresh filter over the list |
| Filtro.FiltroExtensoes.Accept | src/main/java/br/com/joaoborges/filemanager/model/FiltroExtensoes.java:52-66 | a directory gets the flag; any other name is accepted exactly when its lowercased form ends with some lowercased extension |
| Filtro.FiltroExtensoes.AcceptFile | src/main/java/br/com/joaoborges/filemanager/ui/FiltroExtensoesFilechooser.java:14-21 | accept(File) is accept(file, name of file), with the file itself passed as the directory; a file-chooser filter also accepts every directory that test rejects, and only those |
| Filtro.FiltroExtensoes.FileChooser | src/main/java/br/com/joaoborges/filemanager/ui/FiltroExtensoesFilechooser.java:10-12 | a file-chooser filter starts like a plain one: the given extensions, no description, directories rejected by accept(dir, name) |
| Filtro.FiltroExtensoes.GetExtensionsAccepted | src/main/java/br/com/joaoborges/filemanager/model/FiltroExtensoes.java:91-97 | fails exactly when some extension names no constant; otherwise the set holds exactly the constants the extensions name |
| Filtro.FiltroExtensoes.SetDescription | src/main/java/br/com/joaoborges/filemanager/model/FiltroExtensoes.java:81-83 | sets the description and nothing else |
| Filtro.FiltroExtensoes.SetAcceptDirectories | src/main/java/br/com/joaoborges/filemanager/model/FiltroExtensoes.java:108-110 | sets the directory flag and nothing else |
| Filtro.FiltroExtensoes.AddExtensao | src/main/java/br/com/joaoborges/filemanager/model/FiltroExtensoes.java:85-89 | appends the extension and keeps the others in order |
| Filtro.DirectoryJudgedByFlag | src/main/java/br/com/joaoborges/filemanager/model/FiltroExtensoes.java:53-56 | a directory is accepted exactly when the flag is set |
| Filtro.AcceptFileIgnoresDirectoryFlag | src/main/java/br/com/joaoborges/filemanager/model/FiltroExtensoes.java:68-70 | accept(File) on a directory whose name matches no extension rejects it even with the flag set, because it tests d/name(d) |
| Filtro.FiltroExtensoes.CompareTo | src/main/java/br/com/joaoborges/filemanager/model/FiltroExtensoes.java:77-79 | compareTo of the two descriptions |
| Filtro.CompareToAntisymmetric | src/main/java/br/com/joaoborges/filemanager/model/FiltroExtensoes.java:77-79 | filters compare by description, antisymmetrically |
| Filtro.AllAcceptedFilter | src/main/java/br/com/joaoborges/filemanager/model/FiltroExtensoes.java:31-33 | a fresh filter over asStrings, without description, rejecting directories |
| Filtro.AllAcceptedFilterAccepts | src/main/java/br/com/joaoborges/filemanager/model/FiltroExtensoes.java:31-33 | the all-accepted filter takes a name exactly when it ends with the text of some table constant |
| Extensoes.Ordinal | src/main/java/br/com/joaoborges/filemanager/type/Extensao.java:23-58 | ordinal() is the constant's position in values() |
| Extensoes.ValuesListsEachConstantOnce | src/main/java/br/com/joaoborges/filemanager/type/Extensao.java:23-58 | values() lists every constant, each once |
| Extensoes.TypesOfTheTable | src/main/java/br/com/joaoborges/filemanager/type/Extensao.java:23-58 | MP3, WMA and WAV are audio; WMV, MPEG, MPG, MOV and AVI video; JPG, JPEG and BMP image; TXT text |
| Extensoes.SharedGroups | src/main/java/br/com/joaoborges/filemanager/type/Extensao.java:35-51 | the only constants that share a group are MPEG with MPG and JPG with JPEG |
| Extensoes.ValueOf | src/main/java/br/com/joaoborges/filemanager/type/Extensao.java:18-58 | the enum's valueOf succeeds exactly for a constant's name and returns the constant of that name; otherwise IllegalArgument |
| Extensoes.ValueOfName | src/main/java/br/com/joaoborges/filemanager/type/Extensao.java:18-58 | valueOf(name()) gives the constant back |
| Extensoes.NameDecodes | src/main/java/br/com/joaoborges/filemanager/type/Extensao.java:23-58 | the constants' names are pairwise distinct: each decodes to its own constant |
| Extensoes.StringLeIsTotalPreorder | src/main/java/br/com/joaoborges/filemanager/type/Extensao.java:101 | the natural String order that Collections.sort uses is a total preorder |
| Extensoes.AsStrings | src/main/java/br/com/joaoborges/filemanager/type/Extensao.java:88-103 | eleven strings, a permutation of the list the method fills |
| Extensoes.AsStringsSorted | src/main/java/br/com/joaoborges/filemanager/type/Extensao.java:101 | the returned list is sorted |
| Extensoes.AsStringsContents | src/main/java/br/com/joaoborges/filemanager/type/Extensao.java:89-100 | BMP's extension is listed twice, and a constant's extension is present exactly when the filled list names it (MOV and AVI are not added) |
| Extensoes.GetExtensao | src/main/java/br/com/joaoborges/filemanager/type/Extensao.java:141-148 | RuntimeException exactly when no constant's extension equals the argument ignoring case; otherwise the first such constant in declaration order |
| Extensoes.ExtensionsOfType | src/main/java/br/com/joaoborges/filemanager/type/Extensao.java:156-160 | after the first n constants the list holds exactly the extensions of those of the given type |
| Extensoes.GetAsStringByTipo | src/main/java/br/com/joaoborges/filemanager/type/Extensao.java:154-162 | the list holds exactly the extensions of the constants of the given type |
| Extensoes.OfTypeMembers | src/main/java/br/com/joaoborges/filemanager/type/Extensao.java:154-162 | a string is in the list exactly when some constant of the type has it as its extension |
| Extensoes.AudioExtensions | src/main/java/br/com/joaoborges/filemanager/type/Extensao.java:154-162 | the audio list is MP3, WMA, WAV, in that order |
| Extensoes.VideoExtensions | src/main/java/br/com/joaoborges/filemanager/type/Extensao.java:154-162 | the video list is WMV, MPEG, MPG, MOV, AVI, in that order |
| Extensoes.ImageExtensions | src/main/java/br/com/joaoborges/filemanager/type/Extensao.java:154-162 | the image list is JPG, JPEG, BMP, in that order |
| Extensoes.TextExtensions | src/main/java/br/com/joaoborges/filemanager/type/Extensao.java:154-162 | the text list is TXT alone |
| ExtensaoFilters.Grouped | src/main/java/br/com/joaoborges/filemanager/type/Extensao.java:106-115 | the map filled by the first n constants has group keys between 0 and 9 only |
| ExtensaoFilters.AddConstant | src/main/java/br/com/joaoborges/filemanager/type/Extensao.java:107-114 | a constant of another type leaves the map alone; a selected one adds its group to the keys and no other key |
| ExtensaoFilters.DescriptionLeIsTotalPreorder | src/main/java/br/com/joaoborges/filemanager/model/FiltroExtensoes.java:77-79 | ordering filters by description is a total preorder |
| ExtensaoFilters.BuiltFiltersSortedByDescription | src/main/java/br/com/joaoborges/filemanager/type/Extensao.java:116-119 | the returned filters are sorted by description |
| ExtensaoFilters.GroupedHoldsEachGroup | src/main/java/br/com/joaoborges/filemanager/type/Extensao.java:106-115 | a group has a filter exactly when some selected constant is in it, and that filter holds exactly the group's selected extensions in table order, with the group's description |
| ExtensaoFilters.AddConstantKeeps | src/main/java/br/com/joaoborges/filemanager/type/Extensao.java:108-114 | one loop step appends the constant's extension to its own group's filter, creating it on first use, and changes no other group |
| ExtensaoFilters.InGroupHasEachSelected | src/main/java/br/com/joaoborges/filemanager/type/Extensao.java:107-114 | every selected constant's extension ends up in its group's list |
| ExtensaoFilters.AllGroupsPresent | src/main/java/br/com/joaoborges/filemanager/type/Extensao.java:105-120 | getFCFilters returns ten filters, one per group |
| ExtensaoFilters.GroupWitness | src/main/java/br/com/joaoborges/filemanager/type/Extensao.java:23-58 | every group from 0 to 9 has a constant |
| ExtensaoFilters.MpegGroup | src/main/java/br/com/joaoborges/filemanager/type/Extensao.java:35-39 | group 3 lists MPEG's and then MPG's extension |
| ExtensaoFilters.JpgGroup | src/main/java/br/com/joaoborges/filemanager/type/Extensao.java:47-51 | group 5 lists JPG's and then JPEG's extension |
| ExtensaoFilters.MpegSharesWithMpg | src/main/java/br/com/joaoborges/filemanager/type/Extensao.java:105-139 | with all constants or only video ones, MPEG and MPG share one filter holding both extensions and group 3's description |
| ExtensaoFilters.JpgSharesWithJpeg | src/main/java/br/com/joaoborges/filemanager/type/Extensao.java:105-139 | with all constants or only image ones, JPG and JPEG share one filter holding both extensions and group 5's description |
| ExtensaoFilters.GroupByExtensionGroup | src/main/java/br/com/joaoborges/filemanager/type/Extensao.java:106-115 | the loop over values() builds exactly the grouped map |
| ExtensaoFilters.PutConstant | src/main/java/br/com/joaoborges/filemanager/type/Extensao.java:108-114 | the loop body performs exactly one grouping step |
| ExtensaoFilters.MakeFilters | src/main/java/br/com/joaoborges/filemanager/type/Extensao.java:111-113 | one fresh file-chooser filter per value, with its extensions and description: accept(File) takes every directory, accept(dir, name) does not |
| ExtensaoFilters.BuildFilters | src/main/java/br/com/joaoborges/filemanager/type/Extensao.java:105-120 | the filters are the grouped values sorted by description, each a file-chooser filter with its group's extensions and description |
| ExtensaoFilters.BuiltFiltersNonEmpty | src/main/java/br/com/joaoborges/filemanager/type/Extensao.java:111 | no built filter is without extensions, so constructing each one cannot fail |
| ExtensaoFilters.GetFCFilters | src/main/java/br/com/joaoborges/filemanager/type/Extensao.java:105-120 | the file-chooser filters over every constant, one per group, sorted by description; accept(dir, name) rejects directories, accept(File) takes them |
| ExtensaoFilters.GetFCFiltersByFileType | src/main/java/br/com/joaoborges/filemanager/type/Extensao.java:122-139 | the file-chooser filters over the constants of one type, one per group, sorted by description; accept(dir, name) rejects directories, accept(File) takes them |
| PathSecurity.AllowedPaths | src/main/java/br/com/joaoborges/filemanager/security/PathSecurityService.java:55-69 | one base per comma-separated configuration entry, in order, each trimmed and then expanded with ${user.home} and ${tmp} |
| PathSecurity.DefaultBases | src/main/java/br/com/joaoborges/filemanager/security/PathSecurityService.java:47-65 | the default configuration allows "/tmp" and the user's home, in that order |
| PathSecurity.AnyAllows | src/main/java/br/com/joaoborges/filemanager/security/PathSecurityService.java:119-128 | true exactly when some base resolves and the resolved path starts with it; a base that does not resolve allows nothing |
| PathSecurity.ValidateAcceptsExactly | src/main/java/br/com/joaoborges/filemanager/security/PathSecurityService.java:80-139 | a path is accepted exactly when it is present, not blank, at most 4096 UTF-16 code units long, free of "..", free of unsafe chars, resolvable and under some base; the result is its resolved form |
| PathSecurity.AcceptedIsUnderABase | src/main/java/br/com/joaoborges/filemanager/security/PathSecurityService.java:118-135 | an accepted path lies under one of the configured bases |
| PathSecurity.BlankRejected | src/main/java/br/com/joaoborges/filemanager/security/PathSecurityService.java:84-86 | a missing or blank path is an IllegalArgumentException with the blank message |
| PathSecurity.TooLongRejected | src/main/java/br/com/joaoborges/filemanager/security/PathSecurityService.java:89-93 | a non-blank path over 4096 UTF-16 code units is rejected for its length |
| JavaStrings.Utf16Length | src/main/java/br/com/joaoborges/filemanager/security/PathSecurityService.java:89 | String.length(): at least the number of chars and at most twice it |
| JavaStrings.Utf16LengthOfBmp | src/main/java/br/com/joaoborges/filemanager/security/PathSecurityService.java:89 | a string of chars below U+10000 has as many UTF-16 code units as chars |
| JavaStrings.Utf16LengthOfAstral | src/main/java/br/com/joaoborges/filemanager/security/PathSecurityService.java:89 | a string of supplementary chars has two UTF-16 code units per char, so 2100 of them are over the limit |
| PathSecurity.TraversalCheckedBeforeChars | src/main/java/br/com/joaoborges/filemanager/security/PathSecurityService.java:96-107 | ".." in a path of allowed length is a SecurityException even if the path also holds unsafe chars |
| PathSecurity.UnsafeCharRejected | src/main/java/br/com/joaoborges/filemanager/security/PathSecurityService.java:102-107 | a char of the unsafe class in an otherwise well-formed path is an IllegalArgumentException |
| PathSecurity.OutsideBasesDenied | src/main/java/br/com/joaoborges/filemanager/security/PathSecurityService.java:119-135 | a well-formed path under no base is a SecurityException; with no bases nothing is allowed |
| PathSecurity.PathSecurityService.constructor | src/main/java/br/com/joaoborges/filemanager/security/PathSecurityService.java:47-50 | the service keeps the configuration and has no base list yet |
| PathSecurity.PathSecurityService.InitializeAllowedPaths | src/main/java/br/com/joaoborges/filemanager/security/PathSecurityService.java:55-69 | the list is computed on first use and kept unchanged afterwards |
| PathSecurity.PathSecurityService.ValidateAndNormalizePath | src/main/java/br/com/joaoborges/filemanager/security/PathSecurityService.java:80-139 | initialises the bases once, then returns the outcome of the checks in source order against them, the length counted in UTF-16 code units |
| PathSecurity.PathSecurityService.IsPathValid | src/main/java/br/com/joaoborges/filemanager/security/PathSecurityService.java:158-165 | true exactly when the path passes every check |
| PathSecurity.PathSecurityService.GetCanonicalPathString | src/main/java/br/com/joaoborges/filemanager/security/PathSecurityService.java:173-181 | the canonical form of the validated path, or the input unchanged when validation or canonicalisation fails |
| FileSystemControllerModel.DirectoryPath | src/main/java/br/com/joaoborges/filemanager/controller/FileSystemController.java:100-102 | the given path unless it is null or empty, else the user's home |
| FileSystemControllerModel.ParentEntry | src/main/java/br/com/joaoborges/filemanager/controller/FileSystemController.java:136-146 | the ".." entry names the parent directory, marked parent, directory and readable, with no size or date |
| FileSystemControllerModel.EntryOf | src/main/java/br/com/joaoborges/filemanager/controller/FileSystemController.java:158-169 | a child's entry carries its path, name, kind and permissions; size and date are set exactly for a file |
| FileSystemControllerModel.ChildEntriesMembers | src/main/java/br/com/joaoborges/filemanager/controller/FileSystemController.java:149-172 | the loop's entries are exactly those of the listed children that are not hidden and are directories unless files are asked for |
| FileSystemControllerModel.EntryCompare | src/main/java/br/com/joaoborges/filemanager/controller/FileSystemController.java:174-180 | the sort lambda: the parent entry first, then directories before files, then compareToIgnoreCase of the names |
| FileSystemControllerModel.EntryOrderIsTotalPreorder | src/main/java/br/com/joaoborges/filemanager/controller/FileSystemController.java:175-181 | the comparator (parent first, directories before files, then name ignoring case) is a total preorder |
| FileSystemControllerModel.ParentComesFirst | src/main/java/br/com/joaoborges/filemanager/controller/FileSystemController.java:175-177 | in a sorted listing a parent entry, if present, is first |
| FileSystemControllerModel.DirectoriesBeforeFiles | src/main/java/br/com/joaoborges/filemanager/controller/FileSystemController.java:178-179 | in a sorted listing no file comes before a directory, apart from the parent entry |
| FileSystemControllerModel.ListingShape | src/main/java/br/com/joaoborges/filemanager/controller/FileSystemController.java:133-181 | a listing starts with ".." exactly when the directory has a parent, holds no hidden child, only directories unless files are asked for, and size and date exactly on files |
| FileSystemControllerModel.CollectEntries | src/main/java/br/com/joaoborges/filemanager/controller/FileSystemController.java:128-172 | before the sort the entries are exactly the parent entry (when there is a parent) and the kept children, each once |
| FileSystemControllerModel.CollectedMembers | src/main/java/br/com/joaoborges/filemanager/controller/FileSystemController.java:133-172 | the parent entry together with the children's entries is exactly what belongs in the listing |
| FileSystemControllerModel.CollectChildren | src/main/java/br/com/joaoborges/filemanager/controller/FileSystemController.java:149-172 | the loop over the listed children yields their kept entries in listing order |
| FileSystemControllerModel.ChildEntry | src/main/java/br/com/joaoborges/filemanager/controller/FileSystemController.java:150-171 | a hidden child, or a file when only directories are wanted, adds nothing; any other child adds its entry |
| FileSystemControllerModel.ListEntries | src/main/java/br/com/joaoborges/filemanager/controller/FileSystemController.java:133-181 | the entries are sorted with the comparator and are exactly those that belong in the listing, each once |
| FileSystemControllerModel.ListDirectory | src/main/java/br/com/joaoborges/filemanager/controller/FileSystemController.java:95-196 | a validation failure returns its message; then a missing, non-directory or unreadable directory fails with its own message, in that order; otherwise the validated path and its sorted listing, each entry once |
| OrganizadorModel.MoveKindOf | src/main/java/br/com/joaoborges/filemanager/operations/organization/Organizador.java:76-81 | moveFile completes only when the rename is possible and the target is absent; FileExistsException exactly when the source is a file and the target exists |
| OrganizadorModel.MovedNodesValid | src/main/java/br/com/joaoborges/filemanager/operations/organization/Organizador.java:76 | only a completed move changes the tree, it removes the source and creates the target, and the tree stays valid |
| OrganizadorModel.MoveFile | src/main/java/br/com/joaoborges/filemanager/operations/organization/Organizador.java:76-81 | the tree after moveFile, and which way the move ended |
| OrganizadorModel.FindBucket | src/main/java/br/com/joaoborges/filemanager/operations/organization/Organizador.java:52-56 | finds the key equal to the char ignoring case, or reports that none is |
| OrganizadorModel.InsertPos | src/main/java/br/com/joaoborges/filemanager/operations/organization/Organizador.java:52-57 | a new key goes after every key below it ignoring case and before the others |
| OrganizadorModel.AddToExistingBucket | src/main/java/br/com/joaoborges/filemanager/operations/organization/Organizador.java:56-59 | a file whose initial is already a key is appended to that key's list; the map stays ordered and well keyed and gains only that file |
| OrganizadorModel.AddNewBucketAscending | src/main/java/br/com/joaoborges/filemanager/operations/organization/Organizador.java:56-57 | a new key keeps the keys strictly ascending ignoring case |
| OrganizadorModel.AddNewBucketFiles | src/main/java/br/com/joaoborges/filemanager/operations/organization/Organizador.java:56-59 | a new key holds just the new file and the map gains only that file |
| OrganizadorModel.PutThenAdd | src/main/java/br/com/joaoborges/filemanager/operations/organization/Organizador.java:56-59 | put(firstChar, new list) followed by get(firstChar).add(file) is the single grouping step |
| OrganizadorModel.AddToBucketsShape | src/main/java/br/com/joaoborges/filemanager/operations/organization/Organizador.java:54-60 | one file through the first loop keeps the map valid and adds exactly that file |
| OrganizadorModel.BucketedShape | src/main/java/br/com/joaoborges/filemanager/operations/organization/Organizador.java:52-60 | after the first loop the keys ascend ignoring case, each key is its first file's initial, every file sits under its own initial, and the map holds exactly the listed files |
| OrganizadorModel.BucketOfFile | src/main/java/br/com/joaoborges/filemanager/operations/organization/Organizador.java:52-60 | a listed file sits under one key only, the one equal to its initial ignoring case |
| OrganizadorModel.BucketedDisjoint | src/main/java/br/com/joaoborges/filemanager/operations/organization/Organizador.java:52-60 | no two keys share a file |
| OrganizadorModel.MapByFirstChar | src/main/java/br/com/joaoborges/filemanager/operations/organization/Organizador.java:52-60 | the first loop builds exactly the grouped map |
| OrganizadorModel.MoveAllAfterError | src/main/java/br/com/joaoborges/filemanager/operations/organization/Organizador.java:79-81 | once a FileManagerException is raised no further file is moved or recorded |
| OrganizadorModel.OrganizedAfterError | src/main/java/br/com/joaoborges/filemanager/operations/organization/Organizador.java:79-81 | once a FileManagerException is raised no further key is processed |
| OrganizadorModel.OrganizedStopsAt | src/main/java/br/com/joaoborges/filemanager/operations/organization/Organizador.java:65-84 | a run stopped by an exception ends in the state of the prefix that raised it |
| OrganizadorModel.MoveAllStopsAt | src/main/java/br/com/joaoborges/filemanager/operations/organization/Organizador.java:73-83 | an exception inside the inner loop ends the loop in that state |
| OrganizadorModel.MoveStepRecords | src/main/java/br/com/joaoborges/filemanager/operations/organization/Organizador.java:75-82 | a step without an exception records its file with its destination |
| OrganizadorModel.MoveAllRecords | src/main/java/br/com/joaoborges/filemanager/operations/organization/Organizador.java:73-83 | without an exception every file of a key is recorded with its destination in the key's folder, moved or not, and other records are kept |
| OrganizadorModel.MoveAllValid | src/main/java/br/com/joaoborges/filemanager/operations/organization/Organizador.java:73-83 | the inner loop keeps the tree valid |
| OrganizadorModel.MakeFolderValid | src/main/java/br/com/joaoborges/filemanager/operations/organization/Organizador.java:67-70 | creating a missing key folder keeps the tree valid |
| OrganizadorModel.OrganizedValid | src/main/java/br/com/joaoborges/filemanager/operations/organization/Organizador.java:65-84 | the second loop keeps the tree valid |
| OrganizadorModel.OrganizedRecordsKeys | src/main/java/br/com/joaoborges/filemanager/operations/organization/Organizador.java:65-84 | without an exception the recorded files are exactly the files of the map |
| OrganizadorModel.OrganizedRecordsTargets | src/main/java/br/com/joaoborges/filemanager/operations/organization/Organizador.java:65-84 | without an exception every file is recorded as original path to dest/key/name |
| OrganizadorModel.ListingRecorded | src/main/java/br/com/joaoborges/filemanager/operations/organization/Organizador.java:49-84 | a run without an exception records every listed file and nothing else, each under dest/key/name, where the key is the initial of the first listed file with the same initial ignoring case |
| OrganizadorModel.MoveFiles | src/main/java/br/com/joaoborges/filemanager/operations/organization/Organizador.java:73-83 | the inner loop moves the key's files in order and stops at the first exception |
| OrganizadorModel.MoveBucket | src/main/java/br/com/joaoborges/filemanager/operations/organization/Organizador.java:65-83 | one key: its folder dest/key (dest itself for the key '.') is created if missing, then its files are moved, as BucketEffect says |
| OrganizadorModel.DotBucketIsDestination | src/main/java/br/com/joaoborges/filemanager/operations/organization/Organizador.java:67-70 | the folder of the key '.' is dest itself, so those files are moved straight into dest |
| OrganizadorModel.OtherBucketIsChild | src/main/java/br/com/joaoborges/filemanager/operations/organization/Organizador.java:67-70 | any other key names the child folder dest/key |
| OrganizadorModel.MoveBuckets | src/main/java/br/com/joaoborges/filemanager/operations/organization/Organizador.java:65-86 | the second loop processes every key in order; the result is the recorded map or the exception that stopped it |
| OrganizadorModel.ListContent | src/main/java/br/com/joaoborges/filemanager/operations/organization/Organizador.java:45-49 | the listing is AcceptedListing of the base under the given filter, or the all-extensions filter: exactly the accepted children, each once, sorted by name |
| OrganizadorModel.ChosenFilter | src/main/java/br/com/joaoborges/filemanager/operations/organization/Organizador.java:45-46 | the filter used is the given one, or the all-extensions filter with directories rejected |
| OrganizadorModel.ListedNamed | src/main/java/br/com/joaoborges/filemanager/operations/organization/Organizador.java:54-55 | every listed file has a non-empty name, so its initial exists |
| OrganizadorModel.Execute | src/main/java/br/com/joaoborges/filemanager/operations/organization/Organizador.java:42-87 | lists the accepted children (AcceptedListing of the old tree), groups them by initial, moves them key by key into dest/key/name and returns the recorded map or the exception, with the moves made before it kept |
| DuplicateFinderModel.FirstSpace | src/main/java/br/com/joaoborges/filemanager/operations/duplicateFinder/DuplicateFinder.java:45 | the first whitespace char of the regex class, or the length when there is none |
| DuplicateFinderModel.SplitAtSpace | src/main/java/br/com/joaoborges/filemanager/operations/duplicateFinder/DuplicateFinder.java:45 | split("\\s", 2) gives the string itself when it holds no whitespace, otherwise the whitespace-free part before the first whitespace char and everything after it, which rebuild the string |
| DuplicateFinderModel.ParseLine | src/main/java/br/com/joaoborges/filemanager/operations/duplicateFinder/DuplicateFinder.java:45-50 | a line is skipped exactly when its trimmed form holds no whitespace; otherwise the file lies under the directory and the hash holds no whitespace |
| DuplicateFinderModel.Parsed | src/main/java/br/com/joaoborges/filemanager/operations/duplicateFinder/DuplicateFinder.java:44-51 | the read loop never yields more files than lines |
| DuplicateFinderModel.ParsedAppend | src/main/java/br/com/joaoborges/filemanager/operations/duplicateFinder/DuplicateFinder.java:44-51 | reading one more line appends its file, or nothing when it is skipped |
| DuplicateFinderModel.FirstSpaceAt | src/main/java/br/com/joaoborges/filemanager/operations/duplicateFinder/DuplicateFinder.java:45 | the first whitespace position is fixed by the characters before it |
| DuplicateFinderModel.Md5sumLineParses | src/main/java/br/com/joaoborges/filemanager/operations/duplicateFinder/DuplicateFinder.java:45-50 | a line "hash  name" as md5sum writes it parses into that hash and the file dir/name |
| DuplicateFinderModel.Count | src/main/java/br/com/joaoborges/filemanager/operations/duplicateFinder/DuplicateFinder.java:58 | a group is never larger than the listing |
| DuplicateFinderModel.CountAtLeastTwo | src/main/java/br/com/joaoborges/filemanager/operations/duplicateFinder/DuplicateFinder.java:58-61 | a hash's group has more than one file exactly when two distinct lines carry it |
| DuplicateFinderModel.CountPositive | src/main/java/br/com/joaoborges/filemanager/operations/duplicateFinder/DuplicateFinder.java:58 | a hash has a group exactly when some line carries it |
| DuplicateFinderModel.CountAppend | src/main/java/br/com/joaoborges/filemanager/operations/duplicateFinder/DuplicateFinder.java:58 | one more line adds one to its own hash's group only |
| DuplicateFinderModel.LastNonDigit | src/main/java/br/com/joaoborges/filemanager/operations/duplicateFinder/DuplicateFinder.java:28 | the last char that is not a digit, or -1; only digits follow it |
| DuplicateFinderModel.IndexSuffixPosition | src/main/java/br/com/joaoborges/filemanager/operations/duplicateFinder/DuplicateFinder.java:28 | when the pattern matches, its whitespace sits just before the '(' that opens the final run of digits |
| DuplicateFinderModel.IndexSuffixScanMatchesRegex | src/main/java/br/com/joaoborges/filemanager/operations/duplicateFinder/DuplicateFinder.java:28 | the pattern matches exactly when the name ends in ')', digits, '(' and a whitespace char with no line terminator before it |
| DuplicateFinderModel.HasIndexSuffixExamples | src/main/java/br/com/joaoborges/filemanager/operations/duplicateFinder/DuplicateFinder.java:28 | "song (1)", "a ()" and " (12)" match; "song(1)", "song (a)" and "song (1) " do not |
| DuplicateFinderModel.LastSeparator | src/main/java/br/com/joaoborges/filemanager/operations/duplicateFinder/DuplicateFinder.java:65 | the last '/' or '\\' of the name, or -1 |
| DuplicateFinderModel.BaseName | src/main/java/br/com/joaoborges/filemanager/operations/duplicateFinder/DuplicateFinder.java:65 | a name without a dot gives the part after its last separator |
| DuplicateFinderModel.BaseNameDropsExtension | src/main/java/br/com/joaoborges/filemanager/operations/duplicateFinder/DuplicateFinder.java:65 | a name with one extension loses exactly that extension |
| DuplicateFinderModel.Selections | src/main/java/br/com/joaoborges/filemanager/operations/duplicateFinder/DuplicateFinder.java:61-65 | flags each parsed line whose hash is shared and whose base name carries an index |
| DuplicateFinderModel.ReportedHashIsShared | src/main/java/br/com/joaoborges/filemanager/operations/duplicateFinder/DuplicateFinder.java:57-67 | every reported file has a hash carried by two lines and a base name that carries an index |
| DuplicateFinderModel.WholeGroupReported | src/main/java/br/com/joaoborges/filemanager/operations/duplicateFinder/DuplicateFinder.java:57-67 | a group of two or more lines whose names all carry an index is reported whole |
| DuplicateFinderModel.LoneHashNotReported | src/main/java/br/com/joaoborges/filemanager/operations/duplicateFinder/DuplicateFinder.java:61 | a hash listed once is never reported with that hash |
| DuplicateFinderModel.ReadLines | src/main/java/br/com/joaoborges/filemanager/operations/duplicateFinder/DuplicateFinder.java:41-51 | the read loop yields exactly the parsed lines in file order |
| DuplicateFinderModel.ParseEntry | src/main/java/br/com/joaoborges/filemanager/operations/duplicateFinder/DuplicateFinder.java:45-50 | one line of the loop is parsed as the line function says |
| DuplicateFinderModel.GroupSizes | src/main/java/br/com/joaoborges/filemanager/operations/duplicateFinder/DuplicateFinder.java:57-59 | the groups are exactly the hashes present, each with the number of lines carrying it |
| DuplicateFinderModel.ReportsStep | src/main/java/br/com/joaoborges/filemanager/operations/duplicateFinder/DuplicateFinder.java:66 | putting one flagged line extends the report by that line |
| DuplicateFinderModel.SelectIndexed | src/main/java/br/com/joaoborges/filemanager/operations/duplicateFinder/DuplicateFinder.java:57-67 | the result holds exactly the paths of selected lines, each with a selected line's hash |
| DuplicateFinderModel.Execute | src/main/java/br/com/joaoborges/filemanager/operations/duplicateFinder/DuplicateFinder.java:31-70 | no listing file gives an empty result; a read failure becomes a FileManagerException with its message; otherwise the files the listing reports |
| DuplicatesMultiplo.Marks | src/test/java/br/com/joaoborges/filemanager/EncontrarDuplicadosMultiplo.java:183-222 | every mark a stage puts on a file names that file |
| DuplicatesMultiplo.Marked | src/test/java/br/com/joaoborges/filemanager/EncontrarDuplicadosMultiplo.java:183-210 | a stage's list names only files of the group |
| DuplicatesMultiplo.AllButFirst | src/test/java/br/com/joaoborges/filemanager/EncontrarDuplicadosMultiplo.java:227-233 | the last resort lists every file but the first, in order |
| DuplicatesMultiplo.Removal | src/test/java/br/com/joaoborges/filemanager/EncontrarDuplicadosMultiplo.java:180-233 | the list removeDuplicates deletes: stage 1, 2 or 3, whichever first has one entry less than the group, else every file but the first |
| DuplicatesMultiplo.RemovalSize | src/test/java/br/com/joaoborges/filemanager/EncontrarDuplicadosMultiplo.java:180-233 | the deletion list always has one entry less than a non-empty group, and none for an empty one, all from the group |
| DuplicatesMultiplo.StageOneTaken | src/test/java/br/com/joaoborges/filemanager/EncontrarDuplicadosMultiplo.java:197-199 | stage 1's list is used whenever it has one entry less than the group |
| DuplicatesMultiplo.OnlyFirstOfFour | src/test/java/br/com/joaoborges/filemanager/EncontrarDuplicadosMultiplo.java:183-195 | a stage that marks none of the last three of four files lists only the first file's marks |
| DuplicatesMultiplo.FirstFileMarkedThrice | src/test/java/br/com/joaoborges/filemanager/EncontrarDuplicadosMultiplo.java:183-194 | "/fotos_organizar/a.heic" meets all three stage-1 conditions and is listed three times |
| DuplicatesMultiplo.CameraNameMarksNothing | src/test/java/br/com/joaoborges/filemanager/EncontrarDuplicadosMultiplo.java:183-194 | a short absolute path named IMG outside the organise folder gets no stage-1 mark |
| DuplicatesMultiplo.ExampleGroupMarks | src/test/java/br/com/joaoborges/filemanager/EncontrarDuplicadosMultiplo.java:183-194 | the group of a HEIC photo in the organise folder and three camera files elsewhere is distinct, and stage 1 marks the first file three times and no other |
| DuplicatesMultiplo.RepeatedMarksKeepSeveral | src/test/java/br/com/joaoborges/filemanager/EncontrarDuplicadosMultiplo.java:183-197 | as written, such a group passes the size test with one file listed three times, so three copies survive |
| DuplicatesMultiplo.Chosen | src/test/java/br/com/joaoborges/filemanager/EncontrarDuplicadosMultiplo.java:183-195 | a stage's choice names exactly the files of the group that the stage marks |
| DuplicatesMultiplo.ChosenKeepsUnmarked | src/test/java/br/com/joaoborges/filemanager/EncontrarDuplicadosMultiplo.java:197 | a stage's choice keeps exactly the files it does not name |
| DuplicatesMultiplo.AllButFirstKeepsFirst | src/test/java/br/com/joaoborges/filemanager/EncontrarDuplicadosMultiplo.java:227-233 | the last resort keeps exactly one file of a distinct group |
| DuplicatesMultiplo.IntendedRemovalKeepsOne | src/test/java/br/com/joaoborges/filemanager/EncontrarDuplicadosMultiplo.java:180-233 | with each file marked at most once per stage, removeDuplicates keeps exactly one file of every distinct group |
| DuplicatesMultiplo.MarkFile | src/test/java/br/com/joaoborges/filemanager/EncontrarDuplicadosMultiplo.java:183-194 | one file through a stage's forEach appends that stage's marks for it |
| DuplicatesMultiplo.FileGroupByMd5.constructor | src/test/java/br/com/joaoborges/filemanager/EncontrarDuplicadosMultiplo.java:171-178 | the group keeps its sum and its paths; null aggregated paths give an empty group |
| DuplicatesMultiplo.FileGroupByMd5.MarkStage | src/test/java/br/com/joaoborges/filemanager/EncontrarDuplicadosMultiplo.java:183-195 | one stage's forEach over the group builds that stage's list |
| DuplicatesMultiplo.FileGroupByMd5.AllButFirstLoop | src/test/java/br/com/joaoborges/filemanager/EncontrarDuplicadosMultiplo.java:227-233 | the loop from 1 to size-1 lists every file but the first |
| DuplicatesMultiplo.FileGroupByMd5.RemoveDuplicates | src/test/java/br/com/joaoborges/filemanager/EncontrarDuplicadosMultiplo.java:180-234 | the list the method deletes: the first stage with one entry less than the group, else every file but the first |
| DuplicatesMultiplo.DuplicatedGroups | src/test/java/br/com/joaoborges/filemanager/EncontrarDuplicadosMultiplo.java:151-162 | keeps exactly the groups with more than one file |
| DiretorioModel.TreeInsert | src/main/java/br/com/joaoborges/filemanager/model/Diretorio.java:43-44 | TreeSet.add with ORDEM_NOME keeps the content strictly sorted, adds the file only when no name equal to it ignoring case is present, and afterwards an equal name is present |
| DiretorioModel.Diretorio.constructor | src/main/java/br/com/joaoborges/filemanager/model/Diretorio.java:29-31 | the directory keeps its path and content |
| DiretorioModel.NewDiretorio | src/main/java/br/com/joaoborges/filemanager/model/Diretorio.java:36-45 | UnsupportedOperation exactly when the path is not an existing directory; a directory that cannot be listed gives the NullPointer error; otherwise the content holds only children, one per name ignoring case, strictly sorted, and every child has an equal name in it |
| DiretorioModel.ListAccepted | src/main/java/br/com/joaoborges/filemanager/model/Diretorio.java:86-88 | the listing is AcceptedListing: the children of d that the filter accepts, each once, sorted by ORDEM_NOME; none when d cannot be listed |
| DiretorioModel.Diretorio.ListarConteudo | src/main/java/br/com/joaoborges/filemanager/model/Diretorio.java:64-66 | the listing is AcceptedListing of the directory: exactly the accepted children, each once, sorted by ORDEM_NOME |
| DiretorioModel.Diretorio.ListFileNames | src/main/java/br/com/joaoborges/filemanager/model/Diretorio.java:80-84 | the names of listarConteudo's files, position by position; so exactly the accepted names, in order ignoring case |
| DiretorioModel.Collect | src/main/java/br/com/joaoborges/filemanager/model/Diretorio.java:90-94 | the list gains exactly the accepted entries of every listable directory at or below d (the descent ignores the filter); when the list held nothing below d and no entry twice, the result holds no entry twice |
| DiretorioModel.DirectEntry | src/main/java/br/com/joaoborges/filemanager/model/Diretorio.java:91 | the entries a listable directory contributes directly are the accepted entries one level below it |
| DiretorioModel.NothingBelowUnlistable | src/main/java/br/com/joaoborges/filemanager/model/Diretorio.java:93 | nothing below a directory that cannot be listed is collected |
| DiretorioModel.NothingBelowFileListed | src/main/java/br/com/joaoborges/filemanager/model/Diretorio.java:93 | the descent does not enter files, so nothing below a file is collected |
| DiretorioModel.ChildOnTheWay | src/main/java/br/com/joaoborges/filemanager/model/Diretorio.java:93 | an entry collected deeper than d's children lies below a sub-directory of d |
| DiretorioModel.Diretorio.ListarConteudoRecursivo | src/main/java/br/com/joaoborges/filemanager/model/Diretorio.java:68-73 | exactly the accepted entries of every listable directory of the subtree, each once, sorted by ORDEM_NOME |
| DiretorioModel.AcceptedListing | src/main/java/br/com/joaoborges/filemanager/model/Diretorio.java:86-88 | listarConteudoInterno as a value: sorted by ORDEM_NOME, holding exactly the children of a readable d that the filter accepts, each once; empty when d cannot be listed |
| DiretorioModel.AcceptedOfMembers | src/main/java/br/com/joaoborges/filemanager/model/Diretorio.java:86-87 | filtering the platform listing keeps exactly the entries the filter accepts, and repeats none when the listing repeats none |
| DiretorioModel.Names | src/main/java/br/com/joaoborges/filemanager/model/Diretorio.java:80-84 | one name per file, position by position |
| DiretorioModel.NamesMembers | src/main/java/br/com/joaoborges/filemanager/model/Diretorio.java:80-84 | a name is in the list exactly when some file has it |
| DiretorioModel.NamesInOrder | src/main/java/br/com/joaoborges/filemanager/model/Diretorio.java:80-84 | the names of files sorted by ORDEM_NOME are in order ignoring case |
| DiretorioModel.Descend | src/main/java/br/com/joaoborges/filemanager/model/Diretorio.java:93 | the recursion into every sub-directory adds exactly the accepted entries of the listable directories below d, and no entry twice when the list had none below d |
| DiretorioModel.ListedWithoutDirectories | src/main/java/br/com/joaoborges/filemanager/model/FiltroExtensoes.java:52-56 | with the directory flag off, no listed entry is a directory |
| AudioPostProcessorModel.FirstDash | src/main/java/br/com/joaoborges/filemanager/operations/renaming/AudioPostProcessor.java:75-86 | the index of the first dash whose block is no exclusion (or is "-" itself); no dash before it qualifies; the length of the name when none does |
| AudioPostProcessorModel.FirstDashUnique | src/main/java/br/com/joaoborges/filemanager/operations/renaming/AudioPostProcessor.java:75-86 | the first qualifying dash is fixed by those properties |
| AudioPostProcessorModel.SplitParts | src/main/java/br/com/joaoborges/filemanager/operations/renaming/AudioPostProcessor.java:70-94 | splitName returns one or two parts |
| AudioPostProcessorModel.SplitPartsShape | src/main/java/br/com/joaoborges/filemanager/operations/renaming/AudioPostProcessor.java:70-94 | one part, the name itself, exactly when no dash qualifies; otherwise the two parts joined by "-" give the name back and the dash between them is the first qualifying one |
| AudioPostProcessorModel.LoneDashQualifies | src/main/java/br/com/joaoborges/filemanager/operations/renaming/AudioPostProcessor.java:79-84 | a dash standing alone between spaces always splits the name |
| AudioPostProcessorModel.ExcludedDashPassedOver | src/main/java/br/com/joaoborges/filemanager/operations/renaming/AudioPostProcessor.java:79-84 | with "Jay-Z" excluded, "jay-z - song" splits at the spaced dash, not inside the artist |
| AudioPostProcessorModel.NoDashQualifiesBefore | src/main/java/br/com/joaoborges/filemanager/operations/renaming/AudioPostProcessor.java:79-84 | no dash of "jay-z" qualifies when "Jay-Z" is excluded |
| AudioPostProcessorModel.JayZDashExcluded | src/main/java/br/com/joaoborges/filemanager/operations/renaming/AudioPostProcessor.java:80-81 | the block around the dash of "jay-z" matches the exclusion "Jay-Z" ignoring case |
| AudioPostProcessorModel.ProcessedFileNameShape | src/main/java/br/com/joaoborges/filemanager/operations/renaming/AudioPostProcessor.java:44-62 | a name that does not split comes back unchanged; otherwise it is the first part and the second part, with dashes removed and trimmed, joined by " - " |
| AudioPostProcessorModel.ReadTag | src/main/java/br/com/joaoborges/filemanager/operations/renaming/AudioPostProcessor.java:102-106 | a tag exactly when the file exists, is readable and is audio; an untagged file gets the empty default tag |
| AudioPostProcessorModel.AudioEffect | src/main/java/br/com/joaoborges/filemanager/operations/renaming/AudioPostProcessor.java:101-153 | processFile on the files and the result map: no readable tag gives the audio error; a tag naming the song renames the file to the tag's name when renameTo can, replaces its map entry and commits; otherwise the tag gets the parts of the file name and is committed |
| AudioPostProcessorModel.AudioFailureIsFileManagerError | src/main/java/br/com/joaoborges/filemanager/operations/renaming/AudioPostProcessor.java:101-153 | every failure of processFile is the one FileManagerException about the audio properties; it succeeds exactly when the tag is read, can be written, and either names the song or the file name has an extension |
| AudioPostProcessorModel.TagTargetNeverMoves | src/main/java/br/com/joaoborges/filemanager/operations/renaming/AudioPostProcessor.java:123-128 | the target built under the file's own path lies below a file, so renameTo cannot move the file |
| AudioPostProcessorModel.TagBranchEffect | src/main/java/br/com/joaoborges/filemanager/operations/renaming/AudioPostProcessor.java:108-133 | with artist and title in the tag, the entry keyed by the file's path is replaced by target -> path, the file stays where it is and only its tag is written back |
| AudioPostProcessorModel.TagBranchIsCommit | src/main/java/br/com/joaoborges/filemanager/operations/renaming/AudioPostProcessor.java:108-147 | the tag branch changes the files only by writing the tag |
| AudioPostProcessorModel.NameBranchIsCommit | src/main/java/br/com/joaoborges/filemanager/operations/renaming/AudioPostProcessor.java:134-147 | without artist or title the tag built from the file name is written |
| AudioPostProcessorModel.CommittedFrame | src/main/java/br/com/joaoborges/filemanager/operations/renaming/AudioPostProcessor.java:146-147 | writing a tag changes that file's tag and no other node |
| AudioPostProcessorModel.CommitStepFrame | src/main/java/br/com/joaoborges/filemanager/operations/renaming/AudioPostProcessor.java:146-147 | a commit keeps the tree valid and leaves the result map and every other node alone |
| AudioPostProcessorModel.ReplacedEntryFrame | src/main/java/br/com/joaoborges/filemanager/operations/renaming/AudioPostProcessor.java:130-131 | replacing the path's entry by a target below it changes no map entry outside the path |
| AudioPostProcessorModel.NameBranchEffect | src/main/java/br/com/joaoborges/filemanager/operations/renaming/AudioPostProcessor.java:134-145 | artist and album artist become the trimmed first part of the base name, title the second part when there is one, album, genre and year are cleared and track is "0"; the map and the other files are unchanged |
| AudioPostProcessorModel.UnreadableChangesNothing | src/main/java/br/com/joaoborges/filemanager/operations/renaming/AudioPostProcessor.java:101-152 | a file that cannot be read as audio changes nothing and gives the audio error |
| AudioPostProcessorModel.AudioEffectFrame | src/main/java/br/com/joaoborges/filemanager/operations/renaming/AudioPostProcessor.java:97-155 | processFile keeps the tree valid, changes no node other than the file and no map entry outside its path |
| AudioPostProcessorModel.AudioPostProcessor.constructor | src/main/java/br/com/joaoborges/filemanager/operations/renaming/AudioPostProcessor.java:39-42 | the processor and its RenamingOperations share one ExclusionManagerService |
| AudioPostProcessorModel.AudioPostProcessor.SplitName | src/main/java/br/com/joaoborges/filemanager/operations/renaming/AudioPostProcessor.java:70-94 | splitName's loop returns SplitParts |
| AudioPostProcessorModel.AudioPostProcessor.SplitsAt | src/main/java/br/com/joaoborges/filemanager/operations/renaming/AudioPostProcessor.java:78-84 | the loop body splits exactly where the dash qualifies |
| AudioPostProcessorModel.AudioPostProcessor.ProcessFileName | src/main/java/br/com/joaoborges/filemanager/operations/renaming/AudioPostProcessor.java:44-62 | processFileName returns ProcessedFileName |
| AudioPostProcessorModel.AudioPostProcessor.ProcessFile | src/main/java/br/com/joaoborges/filemanager/operations/renaming/AudioPostProcessor.java:97-155 | processFile's new files, result map and outcome are AudioEffect of the old ones |
| AudioPostProcessorModel.AudioPostProcessor.RenameFromTag | src/main/java/br/com/joaoborges/filemanager/operations/renaming/AudioPostProcessor.java:110-131 | the file is renamed to the tag target when that is possible and the map entry of the path becomes target -> path |
| AudioPostProcessorModel.AudioPostProcessor.TagFromFileName | src/main/java/br/com/joaoborges/filemanager/operations/renaming/AudioPostProcessor.java:135-144 | the tag fields set from the file name are TagFromName of its split |
| RenomeadorRules.Substituted | src/main/java/br/com/joaoborges/filemanager/operations/renaming/Renomeador.java:186-195 | the string keeps its length and every occurrence of the character becomes the substitute, every other character stays |
| RenomeadorRules.NoPlusRemains | src/main/java/br/com/joaoborges/filemanager/operations/renaming/Renomeador.java:148 | after the '+' folding no '+' is left |
| RenomeadorRules.SubstitutedWithoutTarget | src/main/java/br/com/joaoborges/filemanager/operations/renaming/Renomeador.java:186-195 | a string without the character is unchanged |
| RenomeadorRules.DoReplacement | src/main/java/br/com/joaoborges/filemanager/operations/renaming/Renomeador.java:186-195 | doReplacement's loop returns Substituted |
| RenomeadorRules.DenoiseStep | src/main/java/br/com/joaoborges/filemanager/operations/renaming/Renomeador.java:153-159 | one catalog entry's step leaves a trimmed string |
| RenomeadorRules.DenoiseKeepsClean | src/main/java/br/com/joaoborges/filemanager/operations/renaming/Renomeador.java:152-160 | a trimmed name holding no non-empty catalog entry passes the whole catalog unchanged |
| RenomeadorRules.DenoiseStepClean | src/main/java/br/com/joaoborges/filemanager/operations/renaming/Renomeador.java:156-159 | a trimmed name without the entry passes one step unchanged |
| RenomeadorRules.EmptyEntrySpacesOut | src/main/java/br/com/joaoborges/filemanager/operations/renaming/Renomeador.java:156-159 | an empty catalog entry matches everywhere: "ab" becomes "a b" |
| RenomeadorRules.EmptyEntryReplaced | src/main/java/br/com/joaoborges/filemanager/operations/renaming/Renomeador.java:157 | replacing the empty entry puts a space before every character and at the end |
| RenomeadorRules.EmptyEntryTrimmed | src/main/java/br/com/joaoborges/filemanager/operations/renaming/Renomeador.java:159 | trimming " a b " gives "a b" |
| RenomeadorRules.ReplaceEntry | src/main/java/br/com/joaoborges/filemanager/operations/renaming/Renomeador.java:153-159 | the loop body for one entry returns DenoiseStep |
| RenomeadorRules.SimpleReplacements | src/main/java/br/com/joaoborges/filemanager/operations/renaming/Renomeador.java:147-162 | simpleReplacements folds '+' into a space, then applies the catalog entries in order |
| RenomeadorRules.RegexReplacements | src/main/java/br/com/joaoborges/filemanager/operations/renaming/Renomeador.java:170-184 | regexReplacements, whose body is commented out, returns its input |
| RenomeadorRules.Replaces | src/main/java/br/com/joaoborges/filemanager/operations/renaming/Renomeador.java:138-142 | replaces returns Replaced: the simple replacements, then the regex ones |
| RenomeadorRules.ReplacedOfCleanName | src/main/java/br/com/joaoborges/filemanager/operations/renaming/Renomeador.java:138-162 | a trimmed name without '+' and without any catalog entry comes out of replaces unchanged |
| RenomeadorRules.FirstLower | src/main/java/br/com/joaoborges/filemanager/operations/renaming/Renomeador.java:221-229 | the index of the first lowercase ASCII letter, with none before it; the length when there is none |
| RenomeadorRules.ProcessedNumbersShape | src/main/java/br/com/joaoborges/filemanager/operations/renaming/Renomeador.java:200-238 | a name an exclusion starts is kept; otherwise it fails exactly when the name has no lowercase letter, and else returns a trimmed substring of the name starting with a lowercase letter |
| RenomeadorRules.FirstLowerUnique | src/main/java/br/com/joaoborges/filemanager/operations/renaming/Renomeador.java:221-229 | the first lowercase letter is fixed by those properties |
| RenomeadorRules.StripPrefixKeeps | src/main/java/br/com/joaoborges/filemanager/operations/renaming/Renomeador.java:217-235 | dropping a prefix without lowercase letters does not change where the stripping ends |
| RenomeadorRules.TrimEndBlankSuffix | src/main/java/br/com/joaoborges/filemanager/operations/renaming/Renomeador.java:230 | blanks at the end do not survive trimming |
| RenomeadorRules.StripSuffixKeeps | src/main/java/br/com/joaoborges/filemanager/operations/renaming/Renomeador.java:217-235 | dropping a blank suffix does not change where the stripping ends |
| RenomeadorRules.StripTrimKeeps | src/main/java/br/com/joaoborges/filemanager/operations/renaming/Renomeador.java:230 | trimming between rounds does not change where the stripping ends |
| RenamingResultModel.RenamingResult.constructor | src/main/java/br/com/joaoborges/filemanager/operations/renaming/Renomeador.java:259-265 | a new result has empty renamedFiles and duplicatedFiles and keeps the directory |
| RenamingResultModel.CollisionPrefixKeepsName | src/main/java/br/com/joaoborges/filemanager/operations/renaming/Renomeador.java:113-117 | the "(millis) " prefix is added exactly when the name is in the snapshot; the name always ends the result |
| RenomeadorModel.AudioName | src/main/java/br/com/joaoborges/filemanager/operations/renaming/Renomeador.java:95-110 | the new name keeps the extension constant it was dispatched on |
| RenomeadorModel.NewNameOfDispatch | src/main/java/br/com/joaoborges/filemanager/operations/renaming/Renomeador.java:88-93 | a name without a dot fails with the index exception; an extension naming no constant with IllegalArgumentException; a constant of a type other than AUDIO with NoSuchBeanDefinitionException; a new name carries the AUDIO constant the extension names |
| RenomeadorModel.NoDotFails | src/main/java/br/com/joaoborges/filemanager/operations/renaming/Renomeador.java:89-90 | a name without a dot fails with StringIndexOutOfBoundsException |
| RenomeadorModel.UnknownExtensionFails | src/main/java/br/com/joaoborges/filemanager/operations/renaming/Renomeador.java:91 | an extension that names no constant fails with IllegalArgumentException |
| RenomeadorModel.OtherTypeFails | src/main/java/br/com/joaoborges/filemanager/operations/renaming/Renomeador.java:93 | a constant whose type has no post-processor fails with NoSuchBeanDefinitionException |
| RenomeadorModel.RenamedIsAudio | src/main/java/br/com/joaoborges/filemanager/operations/renaming/Renomeador.java:91-93 | a built name carries the AUDIO constant the extension names |
| RenomeadorModel.ConstantOfName | src/main/java/br/com/joaoborges/filemanager/operations/renaming/Renomeador.java:91 | an extension that names a constant, ignoring case, gives that constant |
| RenomeadorModel.ConstantOfUnknown | src/main/java/br/com/joaoborges/filemanager/operations/renaming/Renomeador.java:91 | an extension naming no constant gives IllegalArgumentException |
| RenomeadorModel.SkippedFileUntouched | src/main/java/br/com/joaoborges/filemanager/operations/renaming/Renomeador.java:81-130 | hidden, unreadable or unwritable files, names the pipeline throws on and names that come out unchanged leave the files and the map as they were |
| RenomeadorModel.EligibleFileApplied | src/main/java/br/com/joaoborges/filemanager/operations/renaming/Renomeador.java:81-124 | an eligible file whose new name differs goes through the rename step |
| RenomeadorModel.RenamedFileRecorded | src/main/java/br/com/joaoborges/filemanager/operations/renaming/Renomeador.java:112-123 | target -> file is recorded whether or not the rename worked, and stays unless the post-processor's tag branch replaces it by an entry for its own target |
| RenomeadorModel.SameOutsideTransitive | src/main/java/br/com/joaoborges/filemanager/operations/renaming/Renomeador.java:77-132 | staying inside a directory composes over the steps of the loop |
| RenomeadorModel.SameOutsideWiden | src/main/java/br/com/joaoborges/filemanager/operations/renaming/Renomeador.java:78-80 | a step inside a subdirectory stays inside the directory |
| RenomeadorModel.RenamedStaysInside | src/main/java/br/com/joaoborges/filemanager/operations/renaming/Renomeador.java:118 | a rename within a directory keeps the tree valid, changes no node outside the directory, and touches no directory |
| RenomeadorModel.MoveFrame | src/main/java/br/com/joaoborges/filemanager/operations/renaming/Renomeador.java:112-120 | the rename inside the directory and the new entry keep the tree valid and change nothing outside the directory |
| RenomeadorModel.AudioFrame | src/main/java/br/com/joaoborges/filemanager/operations/renaming/Renomeador.java:123 | the post-processor changes nothing outside the path it was given |
| RenomeadorModel.RenameFileFrame | src/main/java/br/com/joaoborges/filemanager/operations/renaming/Renomeador.java:81-130 | one file's step keeps the tree valid and changes nothing outside its directory |
| RenomeadorModel.EffectiveFilter | src/main/java/br/com/joaoborges/filemanager/operations/renaming/Renomeador.java:57-64 | a missing filter becomes a new all-extensions filter accepting directories exactly when INCLUDE_SUB_DIRECTORIES is true; a given filter is kept |
| RenomeadorModel.Renomeador.constructor | src/main/java/br/com/joaoborges/filemanager/operations/renaming/Renomeador.java:42-43 | the operation and its post-processor share one exclusion list |
| RenomeadorModel.Renomeador.GetPostProcessor | src/main/java/br/com/joaoborges/filemanager/operations/renaming/Renomeador.java:93 | a post-processor exactly for AUDIO; any other type gives NoSuchBeanDefinitionException |
| RenomeadorModel.Renomeador.ProcessNumbers | src/main/java/br/com/joaoborges/filemanager/operations/renaming/Renomeador.java:200-238 | processNumbers returns ProcessedNumbers |
| RenomeadorModel.Renomeador.NoExclusionStarts | src/main/java/br/com/joaoborges/filemanager/operations/renaming/Renomeador.java:202-209 | true exactly when no lowercased exclusion starts the name |
| RenomeadorModel.Renomeador.DropToSpaceOrLetter | src/main/java/br/com/joaoborges/filemanager/operations/renaming/Renomeador.java:218-229 | the inner loop drops exactly the characters before the first space or lowercase letter |
| RenomeadorModel.Renomeador.BuildNewName | src/main/java/br/com/joaoborges/filemanager/operations/renaming/Renomeador.java:84-110 | the name pipeline returns NewNameOf |
| RenomeadorModel.Renomeador.RenameFile | src/main/java/br/com/joaoborges/filemanager/operations/renaming/Renomeador.java:78-131 | the step for a non-directory entry changes the files and the map as RenameFileEffect says |
| RenomeadorModel.Renomeador.RenameListedFile | src/main/java/br/com/joaoborges/filemanager/operations/renaming/Renomeador.java:81-131 | a listed file's step is RenameFileEffect on the old state, against the directory's snapshot of names; it keeps the tree valid and changes nothing outside the directory |
| RenomeadorModel.Renomeador.ApplyNewName | src/main/java/br/com/joaoborges/filemanager/operations/renaming/Renomeador.java:112-124 | the rename, the record and processFile change the files and the map as ApplyEffect says |
| RenomeadorModel.Renomeador.RenameDirectory | src/main/java/br/com/joaoborges/filemanager/operations/renaming/Renomeador.java:71-133 | the files, the map and the outcome afterwards are exactly WalkEffect of the old state: the snapshot and listing taken first, each entry in listing order, sub-directories walked recursively into the same map; nothing outside the directory changes; the only failure is the NullPointerException of an unreadable sub-directory |
| RenomeadorModel.Renomeador.RenameEntries | src/main/java/br/com/joaoborges/filemanager/operations/renaming/Renomeador.java:77-132 | the loop over the listing ends in exactly the state and outcome WalkEntries gives from the old state |
| RenomeadorModel.WalkFrame | src/main/java/br/com/joaoborges/filemanager/operations/renaming/Renomeador.java:71-133 | a walk keeps the tree valid, changes no node and no map entry outside the directory, never makes a directory, and can fail only with NullPointerException |
| RenomeadorModel.WalkEntriesFrame | src/main/java/br/com/joaoborges/filemanager/operations/renaming/Renomeador.java:77-132 | the same for the loop from any entry on |
| RenomeadorModel.WalkWithoutDirectoriesPasses | src/main/java/br/com/joaoborges/filemanager/operations/renaming/Renomeador.java:58-64 | with directories rejected by the filter the walk never descends and never fails |
| RenomeadorModel.FilesOnlyPass | src/main/java/br/com/joaoborges/filemanager/operations/renaming/Renomeador.java:77-132 | a loop over entries none of which is a directory never fails |
| RenomeadorModel.WalkFromScratch | src/main/java/br/com/joaoborges/filemanager/operations/renaming/Renomeador.java:55-68 | a walk from an empty map records only paths inside the directory, changes nothing outside it, fails only with NullPointerException, and never fails when directories are rejected |
| RenomeadorModel.Renomeador.Execute | src/main/java/br/com/joaoborges/filemanager/operations/renaming/Renomeador.java:51-69 | a missing directory throws NullPointerException and changes nothing; otherwise the files, the map and the outcome are WalkEffect from an empty map, under the requested filter or the all-extensions filter whose directory flag is INCLUDE_SUB_DIRECTORIES; without a filter and that flag it always succeeds; every recorded path lies inside the directory and duplicatedFiles stays empty |
| RenomeadorModel.Renomeador.RenameIn | src/main/java/br/com/joaoborges/filemanager/operations/renaming/Renomeador.java:55-68 | execute once the filter is chosen: the walk from an empty map, its result fresh and its failures NullPointerException |
| RenomeadorModel.Renomeador.RenameTree | src/main/java/br/com/joaoborges/filemanager/operations/renaming/Renomeador.java:55-66 | a fresh result for the directory, then the walk: state and outcome are WalkEffect from an empty map |
| FileSystemModel.Resolve | src/main/java/br/com/joaoborges/filemanager/operations/renaming/Renomeador.java:112 | a name resolved in a directory lies below that directory |
| FileSystemModel.UnderTransitive | src/main/java/br/com/joaoborges/filemanager/operations/renaming/Renomeador.java:78-80 | being below a directory is transitive |
| FileSystemModel.NothingBelowFile | src/main/java/br/com/joaoborges/filemanager/operations/renaming/AudioPostProcessor.java:123 | in a valid tree nothing lies below a file |
| FileSystemModel.RenamePreservesTree | src/main/java/br/com/joaoborges/filemanager/operations/renaming/Renomeador.java:118 | a rename that rename(2) allows keeps the tree valid |
| FileSystemModel.CommitPreservesTree | src/main/java/br/com/joaoborges/filemanager/operations/renaming/AudioPostProcessor.java:146-147 | writing a tag keeps the tree valid |
| FileSystemModel.FileSystem.constructor | src/main/java/br/com/joaoborges/filemanager/model/Diretorio.java:39 | the filesystem starts from a valid tree |
| FileSystemModel.FileSystem.ListFiles | src/main/java/br/com/joaoborges/filemanager/model/Diretorio.java:44 | listFiles is null exactly when the path is not a readable directory, and otherwise lists every child exactly once |
| FileSystemModel.FileSystem.RenameTo | src/main/java/br/com/joaoborges/filemanager/operations/renaming/Renomeador.java:118 | renameTo succeeds exactly when rename(2) can move the file: the source is a file, the target's parent is a directory, the target is not a directory, and both parent directories are writable; the tree afterwards is the renamed one or unchanged |
| FileSystemModel.FileSystem.CommitTag | src/main/java/br/com/joaoborges/filemanager/operations/renaming/AudioPostProcessor.java:146-147 | the commit succeeds exactly for an existing writable file and changes only its tag |
| FileSystemModel.FileSystem.MakeDirectory | src/main/java/br/com/joaoborges/filemanager/operations/organization/Organizador.java:69 | mkdirs creates the directory exactly when it is missing and its parent is a writable directory, and nothing else changes |
| FileSystemModel.MakeDirectoryPreservesTree | src/main/java/br/com/joaoborges/filemanager/operations/organization/Organizador.java:69 | creating a directory that mkdir(2) allows keeps the tree valid |
| Sorting.Insert | src/main/java/br/com/joaoborges/filemanager/model/Diretorio.java:71 | inserting keeps every element and adds one |
| Sorting.InsertSorted | src/main/java/br/com/joaoborges/filemanager/model/Diretorio.java:71 | inserting into a sorted list keeps it sorted under a total preorder |
| Sorting.Sort | src/main/java/br/com/joaoborges/filemanager/model/Diretorio.java:71 | sorting keeps the same elements with the same multiplicities |
| Sorting.SortSorted | src/main/java/br/com/joaoborges/filemanager/model/Diretorio.java:71 | the sorted list is ordered by the comparator |
| Sorting.SortKeepsElements | src/main/java/br/com/joaoborges/filemanager/model/Diretorio.java:71 | an element is in the sorted list exactly when it is in the input |
| JavaStrings.Lower | src/main/java/br/com/joaoborges/filemanager/model/FilenameComparator.java:17-18 | toLowerCase keeps the length and maps each character |
| JavaStrings.Upper | src/main/java/br/com/joaoborges/filemanager/operations/renaming/Renomeador.java:91 | toUpperCase keeps the length and maps each character |
| JavaStrings.LowerIdempotent | src/main/java/br/com/joaoborges/filemanager/model/FilenameComparator.java:17-18 | lowering twice is lowering once |
| JavaStrings.TrimStart | src/main/java/br/com/joaoborges/filemanager/operations/renaming/Renomeador.java:88 | the leading blanks, and only they, are removed |
| JavaStrings.TrimEnd | src/main/java/br/com/joaoborges/filemanager/operations/renaming/Renomeador.java:88 | the trailing blanks, and only they, are removed |
| JavaStrings.Trim | src/main/java/br/com/joaoborges/filemanager/operations/renaming/Renomeador.java:88 | trim leaves a string that starts and ends with a non-blank, or is empty |
| JavaStrings.TrimOfTrimmed | src/main/java/br/com/joaoborges/filemanager/operations/renaming/Renomeador.java:96-102 | a trimmed string is its own trim |
| JavaStrings.TrimIdempotent | src/main/java/br/com/joaoborges/filemanager/operations/renaming/Renomeador.java:96-102 | trimming twice is trimming once |
| JavaStrings.TrimKeepsNonBlankHead | src/main/java/br/com/joaoborges/filemanager/operations/renaming/Renomeador.java:230 | a string starting with a non-blank keeps that first character |
| JavaStrings.TrimShortensBlankHead | src/main/java/br/com/joaoborges/filemanager/operations/renaming/Renomeador.java:230 | a string starting with a blank gets shorter |
| JavaStrings.LastIndexOf | src/main/java/br/com/joaoborges/filemanager/operations/Utilitario.java:27-33 | the index of the last occurrence, or -1 when there is none |
| JavaStrings.ReplaceAllAbsent | src/main/java/br/com/joaoborges/filemanager/operations/renaming/Renomeador.java:156-157 | replacing a non-empty pattern that does not occur changes nothing |
| JavaStrings.JavaCompare | src/main/java/br/com/joaoborges/filemanager/model/FilenameComparator.java:17-18 | String.compareTo: at the first differing char, the difference of its first differing UTF-16 code units; on a prefix, the difference of the lengths in code units |
| JavaStrings.CompareAntisymmetric | src/main/java/br/com/joaoborges/filemanager/model/FilenameComparator.java:17-18 | compareTo of a and b is minus compareTo of b and a |
| JavaStrings.CompareZeroIffEqual | src/main/java/br/com/joaoborges/filemanager/model/FilenameComparator.java:17-18 | compareTo gives 0 exactly for equal strings |
| JavaStrings.CompareTransitive | src/main/java/br/com/joaoborges/filemanager/model/FilenameComparator.java:17-18 | compareTo's order is transitive |
| JavaStrings.Utf16Units | src/main/java/br/com/joaoborges/filemanager/model/FilenameComparator.java:17-18 | the code units Java stores: as many as String.length() counts |
| JavaStrings.UnitDiffSign | src/main/java/br/com/joaoborges/filemanager/model/FilenameComparator.java:17-18 | two different chars never give 0, and the sign follows the order of their code units |
| JavaStrings.FirstDifferingChar | src/main/java/br/com/joaoborges/filemanager/model/FilenameComparator.java:17-18 | at the first differing char, the loop over code units returns the difference of that char's first differing units |
| JavaStrings.CompareIsUnitCompare | src/main/java/br/com/joaoborges/filemanager/model/FilenameComparator.java:17-18 | compareTo is the lexicographic comparison of the UTF-16 code units, with the difference in code-unit length when one string is a prefix of the other |
| JavaStrings.SupplementaryBeforeFullwidth | src/main/java/br/com/joaoborges/filemanager/model/FilenameComparator.java:17-18 | a supplementary char sorts before U+FF21, because its high surrogate is smaller |
| JavaStrings.SupplementaryAfterFullwidth | src/main/java/br/com/joaoborges/filemanager/controller/FileSystemController.java:179 | compareToIgnoreCase puts the same supplementary char after U+FF21, because it compares whole code points |
| JavaStrings.CodePointCompare | src/main/java/br/com/joaoborges/filemanager/controller/FileSystemController.java:179 | compareToIgnoreCase on lowered names: at the first differing char, the difference of the code points; on a prefix, the difference of the lengths in code units |
| JavaStrings.CodePointCompareAntisymmetric | src/main/java/br/com/joaoborges/filemanager/controller/FileSystemController.java:179 | compareToIgnoreCase of a and b is minus that of b and a |
| JavaStrings.CodePointCompareZeroIffEqual | src/main/java/br/com/joaoborges/filemanager/controller/FileSystemController.java:179 | compareToIgnoreCase of lowered names gives 0 exactly for equal strings |
| JavaStrings.CodePointCompareTransitive | src/main/java/br/com/joaoborges/filemanager/controller/FileSystemController.java:179 | compareToIgnoreCase's order is transitive |
| JavaStrings.NatToString | src/main/java/br/com/joaoborges/filemanager/operations/renaming/Renomeador.java:115 | the clock value renders as a non-empty run of digits |
| JavaStrings.SplitAll | src/main/java/br/com/joaoborges/filemanager/security/PathSecurityService.java:61 | every part is free of the separator |
| JavaStrings.SplitAllNoSeparator | src/main/java/br/com/joaoborges/filemanager/security/PathSecurityService.java:61 | a string without the separator is one part |
| JavaStrings.SplitAllAround | src/main/java/br/com/joaoborges/filemanager/security/PathSecurityService.java:61 | one separator between two separator-free strings splits into those two |
| JavaStrings.SplitAround | src/main/java/br/com/joaoborges/filemanager/security/PathSecurityService.java:61 | split gives both parts around a single separator when the second is non-empty |
| JavaStrings.DropTrailingEmpty | src/main/java/br/com/joaoborges/filemanager/security/PathSecurityService.java:61 | split drops trailing empty parts and only those |
| JavaStrings.Split | src/main/java/br/com/joaoborges/filemanager/security/PathSecurityService.java:61 | a string without the separator splits into itself; no part holds the separator |

## Left out

- **File paths:** `java.io.File` path handling is not modelled. Paths are component sequences, and `new File(dir + separator + name)` appends the components of `name` (split on '/', empty ones dropped, "." meaning the directory itself). `..` and symbolic links are not interpreted.
- **Path depth:** the filesystem holds no path deeper than 1024 components; deeper names are refused as a platform refuses a name that is too long. The recursive listings and the renaming walk rely on this bound to end.
- **`Paths.get(..).normalize().toAbsolutePath()` and `toRealPath`:** these depend on the platform and the working directory. They are the `Resolver` parameter of `PathSecurity`.
- **Resource bundles and text libraries:**
  - The bundle texts are parameters: the noise catalogue (STRINGSTOFILTER), the text of each `Extensao` and the group descriptions.
  - `StringEscapeUtils.unescapeXml`, `WordUtils.capitalizeFully` and `System.currentTimeMillis` are parameters too (one clock value per run).
- **Java version:** `compareToIgnoreCase` is modelled as Java 16 and later define it. At a surrogate pair it compares whole code points, so it orders supplementary characters differently from `compareTo`, which compares UTF-16 code units.
- **Case mapping** (`toLowerCase`, `toUpperCase`, `equalsIgnoreCase`, `CASE_INSENSITIVE_ORDER`): ASCII letters only. Locale-dependent and non-ASCII case mapping is not modelled.
- **Sorting:** `List.sort`, `Collections.sort` and `Stream.sorted` are modelled by one stable insertion sort. The model proves it sorted and a permutation; it does not model TimSort's comparison order.
- **`STRINGSTOFILTER` entries** are read as literal text in `replaceAll`. An entry holding a regular-expression metacharacter would behave differently in Java.
- **The exclusion list:** reading and XML-parsing `exclusions.xml` (XStream, class-loader resources) is replaced by a sequence of already parsed resources.
- **`FileUtils.moveFile`:** its copy-and-delete fallback across filesystems is not modelled. Within one filesystem, the fallback fails whenever the rename does: it cannot write the target directory or delete from the source directory. A move therefore either renames the file or fails with the IOException message.
- **`File.mkdirs`:** modelled for a single missing level under an existing directory, which is how `Organizador` calls it.
- **`File.listFiles` order:** the platform chooses it. The model takes it as a fixed but unspecified function of the tree (`FileSystem.lister`) that lists every child exactly once. Which order a given platform uses is left open.
- **`OrganizadorModel.Execute`** keys a bucket by the whole first char of the name. Java's `substring(0, 1)` takes one UTF-16 code unit, which for a name starting with a supplementary character is a lone high surrogate; Dafny chars cannot hold one. Such names get a bucket of their own per character, where Java would share one bucket per high surrogate.
- **`PathSecurityService`:**
  - Reading `user.home`, `java.io.tmpdir` and the configured property is replaced by parameters.
  - `validateAndGetFile` is folded into `ValidateAndNormalizePath`, since it only wraps the result in a `File`.
- **`EncontrarDuplicadosMultiplo`:**
  - `main`, the JDBC/HSQLDB calls, `retrieveAllFiles` and the `md5sum` process (EncontrarDuplicadosMultiplo.java:38-149) are I/O. They are not modelled; the model starts from the groups they produce.
  - The file and directory deletions of `removeDuplicates` (lines 235-245) are not modelled. The model computes the list of files the method deletes.
- **Logging:** calls to the logger are not modelled.
- **The `PostProcessor` beans:** the Spring bean lookup is a fixed registry with only the AUDIO post-processor, as in the source.
- **Audio tags:** jaudiotagger reading and writing is modelled as part of a node's content. Only the fields the source reads and writes are kept.
- **`Utilitario.GetBlockBehindChar`** requires a non-space character at `i`. Java throws `StringIndexOutOfBoundsException` when position `i` holds a space. The only caller passes the position of a '-'.
- **`Exclusions.ExclusionManagerService.constructor`** starts with an empty list. In Java the list is null until `afterPropertiesSet` runs.
- **`Filtro.FiltroExtensoes.CompareTo`** requires both descriptions to be set. Java throws a NullPointerException on a missing one.
- **Code followed where the documented behaviour differs:**
  - A file type without a registered post-processor makes the bean lookup throw. The file is then skipped; it is not renamed with the name unchanged.
  - The collision check compares the new name only with the name snapshot taken before the loop, with exact case. Files renamed earlier in the same run are not in the snapshot.
  - The audio tag branch builds its target under the file's own path, so the second rename never moves the file. The map still replaces the file's entry by target -> file.

## Findings

| source | as written | input that shows it | evidently intended | confidence | as-written member | corrected member |
|---|---|---|---|---|---|---|
| src/test/java/br/com/joaoborges/filemanager/EncontrarDuplicadosMultiplo.java:183-197 | stage 1 adds one mark per condition a file meets, and its list is used when its size is one less than the group's | the group ["/fotos_organizar/a.heic", "/a/IMG", "/b/IMG", "/c/IMG"]: the first file meets all three conditions, so the list is [a, a, a] and three of the four copies survive | mark each file at most once, so that exactly one copy of the group is kept | not executed | DuplicatesMultiplo.RepeatedMarksKeepSeveral | DuplicatesMultiplo.IntendedRemovalKeepsOne |
