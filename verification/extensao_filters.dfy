/**
 * Extensao.getFCFilters and getFCFiltersByFileType: one filter per extension
 * group, built in a HashMap keyed by group, then sorted by description.
 */
module ExtensaoFilters {
  import opened Wrappers
  import opened JavaStrings
  import opened Sorting
  import opened Extensoes
  import opened Filtro

  /** What a built filter holds: its extensions, in table order, and its group's description. */
  datatype GroupFilter = GroupFilter(extensions: seq<string>, description: string)

  /**
   * The HashMap after the first n constants: a constant joins the filter of
   * its group, or starts one.  `only` restricts the constants to one type.
   */
  function Grouped(text: Extensao -> string, groupDescription: int -> string, only: Option<FileType>, n: nat)
    : (m: map<int, GroupFilter>)
    requires n <= |Values|
    ensures forall g | g in m :: 0 <= g < 10
  {
    if n == 0 then map[]
    else AddConstant(Grouped(text, groupDescription, only, n - 1), text, groupDescription, only, Values[n - 1])
  }

  /** One constant of the loop: skipped, added to its group's filter, or starting one. */
  function AddConstant(m: map<int, GroupFilter>, text: Extensao -> string, groupDescription: int -> string,
                       only: Option<FileType>, e: Extensao): (r: map<int, GroupFilter>)
    requires forall g | g in m :: 0 <= g < 10
    ensures forall g | g in r :: 0 <= g < 10
    ensures !Selected(only, e) ==> r == m
    ensures Selected(only, e) ==> r.Keys == m.Keys + {Group(e)}
  {
    if only.Some? && Type(e) != only.value then m
    else if Group(e) in m then m[Group(e) := m[Group(e)].(extensions := m[Group(e)].extensions + [text(e)])]
    else m[Group(e) := GroupFilter([text(e)], groupDescription(Group(e)))]
  }

  /**
   * HashMap.values() for keys below 10: an Integer hashes to itself and the
   * default table has 16 buckets, so the values come in ascending key order.
   */
  function InKeyOrder(m: map<int, GroupFilter>, from: nat): seq<GroupFilter>
    decreases 10 - from
  {
    if from >= 10 then []
    else (if from in m then [m[from]] else []) + InKeyOrder(m, from + 1)
  }

  function DescriptionLe(a: GroupFilter, b: GroupFilter): bool {
    JavaCompare(a.description, b.description) <= 0
  }

  lemma DescriptionLeIsTotalPreorder()
    ensures TotalPreorder(DescriptionLe)
  {
    forall a: GroupFilter, b: GroupFilter ensures DescriptionLe(a, b) || DescriptionLe(b, a) {
      CompareAntisymmetric(a.description, b.description);
    }
    forall a: GroupFilter, b: GroupFilter, c: GroupFilter | DescriptionLe(a, b) && DescriptionLe(b, c)
      ensures DescriptionLe(a, c)
    {
      CompareTransitive(a.description, b.description, c.description);
    }
  }

  /** The filters the builders return, as values. */
  function BuiltFilters(text: Extensao -> string, groupDescription: int -> string, only: Option<FileType>)
    : seq<GroupFilter>
  {
    Sort(InKeyOrder(Grouped(text, groupDescription, only, |Values|), 0), DescriptionLe)
  }

  lemma BuiltFiltersSortedByDescription(text: Extensao -> string, groupDescription: int -> string, only: Option<FileType>)
    ensures SortedBy(BuiltFilters(text, groupDescription, only), DescriptionLe)
  {
    DescriptionLeIsTotalPreorder();
    SortSorted(InKeyOrder(Grouped(text, groupDescription, only, |Values|), 0), DescriptionLe);
  }

  predicate Selected(only: Option<FileType>, e: Extensao) {
    only.None? || Type(e) == only.value
  }

  /** The extensions, in table order, of the selected constants among the first n that are in group g. */
  function InGroup(text: Extensao -> string, only: Option<FileType>, n: nat, g: int): seq<string>
    requires n <= |Values|
  {
    if n == 0 then []
    else InGroup(text, only, n - 1, g)
         + (if Selected(only, Values[n - 1]) && Group(Values[n - 1]) == g then [text(Values[n - 1])] else [])
  }

  /**
   * One filter per group that has a selected constant, holding the extensions
   * of exactly the selected constants of that group, with the group's description.
   */
  lemma {:induction false} GroupedHoldsEachGroup(text: Extensao -> string, d: int -> string, only: Option<FileType>, n: nat)
    requires n <= |Values|
    ensures forall g :: g in Grouped(text, d, only, n) <==> InGroup(text, only, n, g) != []
    ensures forall g | g in Grouped(text, d, only, n) ::
      Grouped(text, d, only, n)[g] == GroupFilter(InGroup(text, only, n, g), d(g))
  {
    if n > 0 {
      GroupedHoldsEachGroup(text, d, only, n - 1);
      var m, e := Grouped(text, d, only, n - 1), Values[n - 1];
      forall g ensures (g in Grouped(text, d, only, n) <==> InGroup(text, only, n, g) != [])
                    && (g in Grouped(text, d, only, n) ==>
                        Grouped(text, d, only, n)[g] == GroupFilter(InGroup(text, only, n, g), d(g)))
      {
        AddConstantKeeps(m, text, d, only, e, g, InGroup(text, only, n - 1, g));
      }
    }
  }

  /** The step of the induction above, for one group: the constant joins its own group's list only. */
  lemma AddConstantKeeps(m: map<int, GroupFilter>, text: Extensao -> string, d: int -> string,
                         only: Option<FileType>, e: Extensao, g: int, before: seq<string>)
    requires forall k | k in m :: 0 <= k < 10
    requires g in m <==> before != []
    requires g in m ==> m[g] == GroupFilter(before, d(g))
    ensures var r := AddConstant(m, text, d, only, e);
      var after := before + (if Selected(only, e) && Group(e) == g then [text(e)] else []);
      && (g in r <==> after != [])
      && (g in r ==> r[g] == GroupFilter(after, d(g)))
  {
  }

  lemma {:induction false} InGroupHasEachSelected(text: Extensao -> string, only: Option<FileType>, n: nat, k: nat)
    requires k < n <= |Values| && Selected(only, Values[k])
    ensures text(Values[k]) in InGroup(text, only, n, Group(Values[k]))
  {
    if k < n - 1 {
      InGroupHasEachSelected(text, only, n - 1, k);
    }
  }

  lemma {:induction false} InKeyOrderAllKeys(m: map<int, GroupFilter>, from: nat)
    requires from <= 10 && forall g | from <= g < 10 :: g in m
    ensures |InKeyOrder(m, from)| == 10 - from
    decreases 10 - from
  {
    if from < 10 {
      InKeyOrderAllKeys(m, from + 1);
    }
  }

  /** getFCFilters: ten filters, one per group. */
  lemma AllGroupsPresent(text: Extensao -> string, d: int -> string)
    ensures |BuiltFilters(text, d, None)| == 10
  {
    var o: Option<FileType> := None;
    var m := Grouped(text, d, o, |Values|);
    GroupedHoldsEachGroup(text, d, o, |Values|);
    forall g | 0 <= g < 10 ensures g in m {
      var e := GroupWitness(g);
      InGroupHasEachSelected(text, o, |Values|, Ordinal(e));
    }
    InKeyOrderAllKeys(m, 0);
  }

  /** A constant of each group. */
  function GroupWitness(g: int): (e: Extensao)
    requires 0 <= g < 10
    ensures Group(e) == g
  {
    if g == 0 then MP3 else if g == 1 then WMA else if g == 2 then WMV else if g == 3 then MPEG
    else if g == 4 then WAV else if g == 5 then JPG else if g == 6 then BMP else if g == 7 then TXT
    else if g == 8 then MOV else AVI
  }

  /** Constants of other groups leave a group's list as it was. */
  lemma {:induction false} InGroupSkips(text: Extensao -> string, o: Option<FileType>, lo: nat, hi: nat, g: int)
    requires lo <= hi <= |Values|
    requires forall k | lo <= k < hi :: Group(Values[k]) != g
    ensures InGroup(text, o, hi, g) == InGroup(text, o, lo, g)
    decreases hi - lo
  {
    if lo < hi {
      InGroupSkips(text, o, lo, hi - 1, g);
    }
  }

  /** The extensions of group 3 are MPEG's and MPG's, in that order. */
  lemma MpegGroup(text: Extensao -> string, o: Option<FileType>)
    requires Selected(o, MPEG) && Selected(o, MPG)
    ensures InGroup(text, o, |Values|, 3) == [text(MPEG), text(MPG)]
  {
    InGroupSkips(text, o, 0, 3, 3);
    assert InGroup(text, o, 0, 3) == [];
    assert InGroup(text, o, 5, 3) == InGroup(text, o, 3, 3) + [text(MPEG)] + [text(MPG)];
    InGroupSkips(text, o, 5, |Values|, 3);
  }

  /** The extensions of group 5 are JPG's and JPEG's, in that order. */
  lemma JpgGroup(text: Extensao -> string, o: Option<FileType>)
    requires Selected(o, JPG) && Selected(o, JPEG)
    ensures InGroup(text, o, |Values|, 5) == [text(JPG), text(JPEG)]
  {
    InGroupSkips(text, o, 0, 6, 5);
    assert InGroup(text, o, 0, 5) == [];
    assert InGroup(text, o, 8, 5) == InGroup(text, o, 6, 5) + [text(JPG)] + [text(JPEG)];
    InGroupSkips(text, o, 8, |Values|, 5);
  }

  /** MPEG and MPG share one filter, whether all constants or only the video ones are grouped. */
  lemma MpegSharesWithMpg(text: Extensao -> string, d: int -> string, only: Option<FileType>)
    requires only == None || only == Some(VIDEO)
    ensures 3 in Grouped(text, d, only, |Values|)
    ensures Grouped(text, d, only, |Values|)[3] == GroupFilter([text(MPEG), text(MPG)], d(3))
  {
    GroupedHoldsEachGroup(text, d, only, |Values|);
    MpegGroup(text, only);
  }

  /** JPG and JPEG share one filter, whether all constants or only the image ones are grouped. */
  lemma JpgSharesWithJpeg(text: Extensao -> string, d: int -> string, only: Option<FileType>)
    requires only == None || only == Some(IMAGE)
    ensures 5 in Grouped(text, d, only, |Values|)
    ensures Grouped(text, d, only, |Values|)[5] == GroupFilter([text(JPG), text(JPEG)], d(5))
  {
    GroupedHoldsEachGroup(text, d, only, |Values|);
    JpgGroup(text, only);
  }

  /** The HashMap loop of the builders. */
  method GroupByExtensionGroup(text: Extensao -> string, groupDescription: int -> string, only: Option<FileType>)
    returns (mapa: map<int, GroupFilter>)
    ensures mapa == Grouped(text, groupDescription, only, |Values|)
  {
    mapa := map[];
    for n := 0 to |Values|
      invariant mapa == Grouped(text, groupDescription, only, n)
    {
      mapa := PutConstant(mapa, text, groupDescription, only, Values[n]);
    }
  }

  /** The loop body: the constant's extension goes into its group's filter, made on first use. */
  method PutConstant(mapa: map<int, GroupFilter>, text: Extensao -> string, groupDescription: int -> string,
                     only: Option<FileType>, e: Extensao) returns (r: map<int, GroupFilter>)
    requires forall g | g in mapa :: 0 <= g < 10
    ensures r == AddConstant(mapa, text, groupDescription, only, e)
  {
    r := mapa;
    if only.None? || Type(e) == only.value {
      if Group(e) in r {
        r := r[Group(e) := r[Group(e)].(extensions := r[Group(e)].extensions + [text(e)])];
      } else {
        r := r[Group(e) := GroupFilter([text(e)], groupDescription(Group(e)))];
      }
    }
  }

  /** One FiltroExtensoesFilechooser per value, with its extensions and description. */
  method MakeFilters(values: seq<GroupFilter>) returns (filters: seq<FiltroExtensoes>)
    requires forall v | v in values :: v.extensions != []
    ensures |filters| == |values|
    ensures forall i | 0 <= i < |filters| ::
      && fresh(filters[i])
      && filters[i].extensionsAccepted == values[i].extensions
      && filters[i].description == Some(values[i].description)
      && !filters[i].acceptDirectories
      && filters[i].forFileChooser
  {
    filters := [];
    for i := 0 to |values|
      invariant |filters| == i
      invariant forall k | 0 <= k < i ::
        && fresh(filters[k])
        && filters[k].extensionsAccepted == values[k].extensions
        && filters[k].description == Some(values[k].description)
        && !filters[k].acceptDirectories
        && filters[k].forFileChooser
    {
      var fe := new FiltroExtensoes.FileChooser(values[i].extensions);
      fe.SetDescription(values[i].description);
      filters := filters + [fe];
    }
  }

  /**
   * The builders: the HashMap is filled constant by constant (a constant of
   * a group already present is added to that group's filter), its values are
   * sorted by description, and one filter object is made for each.
   */
  method BuildFilters(text: Extensao -> string, groupDescription: int -> string, only: Option<FileType>)
    returns (filters: seq<FiltroExtensoes>)
    ensures |filters| == |BuiltFilters(text, groupDescription, only)|
    ensures forall i | 0 <= i < |filters| ::
      && fresh(filters[i])
      && filters[i].extensionsAccepted == BuiltFilters(text, groupDescription, only)[i].extensions
      && filters[i].description == Some(BuiltFilters(text, groupDescription, only)[i].description)
      && !filters[i].acceptDirectories
      && filters[i].forFileChooser
  {
    var mapa := GroupByExtensionGroup(text, groupDescription, only);
    var sorted := Sort(InKeyOrder(mapa, 0), DescriptionLe);
    BuiltFiltersNonEmpty(text, groupDescription, only);
    filters := MakeFilters(sorted);
  }

  /** No built filter is without extensions. */
  lemma BuiltFiltersNonEmpty(text: Extensao -> string, groupDescription: int -> string, only: Option<FileType>)
    ensures forall v | v in BuiltFilters(text, groupDescription, only) :: v.extensions != []
  {
    var mapa := Grouped(text, groupDescription, only, |Values|);
    forall v | v in BuiltFilters(text, groupDescription, only) ensures v.extensions != [] {
      assert v in multiset(InKeyOrder(mapa, 0));
      GroupedHoldsEachGroup(text, groupDescription, only, |Values|);
      GroupFiltersNonEmpty(mapa, 0, v);
    }
  }

  /** Every filter starts with one extension, so none is empty. */
  lemma {:induction false} GroupFiltersNonEmpty(m: map<int, GroupFilter>, from: nat, g: GroupFilter)
    requires forall k | k in m :: m[k].extensions != []
    requires g in InKeyOrder(m, from)
    ensures g.extensions != []
    decreases 10 - from
  {
    if from < 10 && !(from in m && g == m[from]) {
      GroupFiltersNonEmpty(m, from + 1, g);
    }
  }

  method GetFCFilters(text: Extensao -> string, groupDescription: int -> string)
    returns (filters: seq<FiltroExtensoes>)
    ensures |filters| == |BuiltFilters(text, groupDescription, None)|
    ensures forall i | 0 <= i < |filters| ::
      && fresh(filters[i])
      && filters[i].extensionsAccepted == BuiltFilters(text, groupDescription, None)[i].extensions
      && filters[i].description == Some(BuiltFilters(text, groupDescription, None)[i].description)
      && !filters[i].acceptDirectories
      && filters[i].forFileChooser
  {
    filters := BuildFilters(text, groupDescription, None);
  }

  method GetFCFiltersByFileType(text: Extensao -> string, groupDescription: int -> string, t: FileType)
    returns (filters: seq<FiltroExtensoes>)
    ensures |filters| == |BuiltFilters(text, groupDescription, Some(t))|
    ensures forall i | 0 <= i < |filters| ::
      && fresh(filters[i])
      && filters[i].extensionsAccepted == BuiltFilters(text, groupDescription, Some(t))[i].extensions
      && filters[i].description == Some(BuiltFilters(text, groupDescription, Some(t))[i].description)
      && !filters[i].acceptDirectories
      && filters[i].forFileChooser
  {
    filters := BuildFilters(text, groupDescription, Some(t));
  }
}
