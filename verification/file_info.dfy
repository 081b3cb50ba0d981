/**
 * FileInfo: one row of the renaming report (original name, new name and the
 * size as display text), ordered by new name, then original name, then size.
 */
module FileInfoModel {
  import opened JavaStrings

  /** The order compareTo imposes on the three fields, field by field. */
  function CompareRows(newA: string, origA: string, sizeA: string,
                       newB: string, origB: string, sizeB: string): int
  {
    var comp := JavaCompare(newA, newB);
    if comp != 0 then comp
    else
      var comp2 := JavaCompare(origA, origB);
      if comp2 != 0 then comp2 else JavaCompare(sizeA, sizeB)
  }

  class FileInfo {
    var originalName: string
    var newName: string
    var size: string

    constructor (originalName: string, newName: string, size: string)
      ensures this.originalName == originalName
      ensures this.newName == newName
      ensures this.size == size
    {
      this.originalName := originalName;
      this.newName := newName;
      this.size := size;
    }

    method SetOriginalName(n: string)
      modifies this
      ensures originalName == n && newName == old(newName) && size == old(size)
    {
      originalName := n;
    }

    method SetNewName(n: string)
      modifies this
      ensures newName == n && originalName == old(originalName) && size == old(size)
    {
      newName := n;
    }

    method SetSize(s: string)
      modifies this
      ensures size == s && originalName == old(originalName) && newName == old(newName)
    {
      size := s;
    }

    /**
     * compareTo: the first non-zero String.compareTo among new name, original
     * name and size; a row whose new name differs is ordered by it alone.
     */
    function CompareTo(o: FileInfo): (r: int)
      reads this, o
      ensures JavaCompare(newName, o.newName) != 0 ==> r == JavaCompare(newName, o.newName)
      ensures newName == o.newName && originalName != o.originalName ==>
                r == JavaCompare(originalName, o.originalName)
      ensures newName == o.newName && originalName == o.originalName ==> r == JavaCompare(size, o.size)
    {
      CompareZeroIffEqual(newName, o.newName);
      CompareZeroIffEqual(originalName, o.originalName);
      CompareRows(newName, originalName, size, o.newName, o.originalName, o.size)
    }
  }

  /** compareTo returns 0 exactly when the three fields agree. */
  lemma CompareToZeroIffSameFields(a: FileInfo, b: FileInfo)
    ensures a.CompareTo(b) == 0 <==>
      a.newName == b.newName && a.originalName == b.originalName && a.size == b.size
  {
    CompareZeroIffEqual(a.newName, b.newName);
    CompareZeroIffEqual(a.originalName, b.originalName);
    CompareZeroIffEqual(a.size, b.size);
  }

  /** Swapping the rows negates the comparison. */
  lemma CompareToAntisymmetric(a: FileInfo, b: FileInfo)
    ensures a.CompareTo(b) == -b.CompareTo(a)
  {
    CompareAntisymmetric(a.newName, b.newName);
    CompareAntisymmetric(a.originalName, b.originalName);
    CompareAntisymmetric(a.size, b.size);
  }

  /** Rows are ordered transitively, so sorting a report is well defined. */
  lemma CompareToTransitive(a: FileInfo, b: FileInfo, c: FileInfo)
    requires a.CompareTo(b) <= 0 && b.CompareTo(c) <= 0
    ensures a.CompareTo(c) <= 0
  {
    CompareZeroIffEqual(a.newName, b.newName);
    CompareZeroIffEqual(b.newName, c.newName);
    CompareZeroIffEqual(a.newName, c.newName);
    CompareZeroIffEqual(a.originalName, b.originalName);
    CompareZeroIffEqual(b.originalName, c.originalName);
    CompareZeroIffEqual(a.originalName, c.originalName);
    CompareTransitive(a.newName, b.newName, c.newName);
    CompareAntisymmetric(a.newName, b.newName);
    CompareAntisymmetric(b.newName, c.newName);
    if a.newName == b.newName && b.newName == c.newName {
      CompareTransitive(a.originalName, b.originalName, c.originalName);
      CompareAntisymmetric(a.originalName, b.originalName);
      CompareAntisymmetric(b.originalName, c.originalName);
      if a.originalName == b.originalName && b.originalName == c.originalName {
        CompareTransitive(a.size, b.size, c.size);
      }
    }
  }
}
