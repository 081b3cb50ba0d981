/**
 * FilenameComparator.ORDEM_NOME: files ordered by their lowercased names
 * under String.compareTo.
 */
module FilenameComparator {
  import opened JavaStrings
  import opened FileSystemModel
  import opened Sorting

  /** File.getName: the last component, "" for the root. */
  function FileName(p: Path): string {
    if p == [] then "" else NameOf(p)
  }

  /** compare(o1, o2). */
  function Compare(a: Path, b: Path): int {
    JavaCompare(Lower(FileName(a)), Lower(FileName(b)))
  }

  /** ORDEM_NOME as the relation a sort uses. */
  function NameLe(a: Path, b: Path): bool {
    Compare(a, b) <= 0
  }

  /** Two files compare as equal exactly when their names agree ignoring case. */
  lemma CompareZeroIffSameNameIgnoringCase(a: Path, b: Path)
    ensures Compare(a, b) == 0 <==> EqualsIgnoreCase(FileName(a), FileName(b))
  {
    CompareZeroIffEqual(Lower(FileName(a)), Lower(FileName(b)));
  }

  lemma CompareReflexive(a: Path)
    ensures Compare(a, a) == 0
  {
    CompareZeroIffEqual(Lower(FileName(a)), Lower(FileName(a)));
  }

  /** Names that differ only in case compare as 0. */
  lemma CaseOnlyDifferenceIsEqual(dir: Path, name: string)
    requires name != []
    ensures Compare(dir + [name], dir + [Upper(name)]) == 0
  {
    assert Lower(Upper(name)) == Lower(name);
    CompareZeroIffEqual(Lower(name), Lower(Upper(name)));
  }

  lemma CompareAntisymmetricSign(a: Path, b: Path)
    ensures Compare(a, b) == -Compare(b, a)
  {
    CompareAntisymmetric(Lower(FileName(a)), Lower(FileName(b)));
  }

  lemma CompareTransitiveOnPaths(a: Path, b: Path, c: Path)
    requires Compare(a, b) <= 0 && Compare(b, c) <= 0
    ensures Compare(a, c) <= 0
  {
    CompareTransitive(Lower(FileName(a)), Lower(FileName(b)), Lower(FileName(c)));
  }

  /** ORDEM_NOME is a total preorder, so sorting by it is well defined up to ties. */
  lemma NameLeIsTotalPreorder()
    ensures TotalPreorder(NameLe)
  {
    forall a: Path, b: Path ensures NameLe(a, b) || NameLe(b, a) {
      CompareAntisymmetricSign(a, b);
    }
    forall a: Path, b: Path, c: Path | NameLe(a, b) && NameLe(b, c) ensures NameLe(a, c) {
      CompareTransitiveOnPaths(a, b, c);
    }
  }

  /** A strictly smaller element stays strictly smaller past an element not below it. */
  lemma CompareStrictTransitive(a: Path, b: Path, c: Path)
    requires Compare(a, b) < 0 && Compare(b, c) <= 0
    ensures Compare(a, c) < 0
  {
    CompareTransitiveOnPaths(a, b, c);
    if Compare(a, c) == 0 {
      CompareZeroIffEqual(Lower(FileName(a)), Lower(FileName(c)));
      CompareAntisymmetricSign(b, c);
    }
  }
}
