/**
 * Extensao: the table of supported extensions, each with its file type and
 * the group that merges extensions of one format.  The extension text and
 * the group descriptions come from resource bundles and are parameters here
 * (`text`, `groupDescription`).
 */
module Extensoes {
  import opened Wrappers
  import opened JavaErrors
  import opened JavaStrings
  import opened Sorting

  datatype FileType = AUDIO | VIDEO | IMAGE | TEXT

  datatype Extensao = MP3 | WMA | WMV | MPEG | MPG | WAV | JPG | JPEG | BMP | MOV | AVI | TXT

  /** values(), in declaration order. */
  const Values: seq<Extensao> := [MP3, WMA, WMV, MPEG, MPG, WAV, JPG, JPEG, BMP, MOV, AVI, TXT]

  function Group(e: Extensao): int {
    match e
    case MP3 => 0 case WMA => 1 case WMV => 2 case MPEG => 3 case MPG => 3 case WAV => 4
    case JPG => 5 case JPEG => 5 case BMP => 6 case MOV => 8 case AVI => 9 case TXT => 7
  }

  function Type(e: Extensao): FileType {
    match e
    case MP3 => AUDIO case WMA => AUDIO case WAV => AUDIO
    case WMV => VIDEO case MPEG => VIDEO case MPG => VIDEO case MOV => VIDEO case AVI => VIDEO
    case JPG => IMAGE case JPEG => IMAGE case BMP => IMAGE
    case TXT => TEXT
  }

  /** name(): the constant's identifier. */
  function Name(e: Extensao): string {
    match e
    case MP3 => "MP3" case WMA => "WMA" case WMV => "WMV" case MPEG => "MPEG" case MPG => "MPG"
    case WAV => "WAV" case JPG => "JPG" case JPEG => "JPEG" case BMP => "BMP" case MOV => "MOV"
    case AVI => "AVI" case TXT => "TXT"
  }

  /** ordinal(): the position in declaration order. */
  function Ordinal(e: Extensao): (k: nat)
    ensures k < |Values| && Values[k] == e
  {
    match e
    case MP3 => 0 case WMA => 1 case WMV => 2 case MPEG => 3 case MPG => 4 case WAV => 5
    case JPG => 6 case JPEG => 7 case BMP => 8 case MOV => 9 case AVI => 10 case TXT => 11
  }

  lemma ValuesListsEachConstantOnce(e: Extensao)
    ensures e in Values
    ensures forall i, j | 0 <= i < j < |Values| :: Values[i] != Values[j]
  {
  }

  /** The types the table fixes. */
  lemma TypesOfTheTable(e: Extensao)
    ensures Type(e) == AUDIO <==> e in {MP3, WMA, WAV}
    ensures Type(e) == VIDEO <==> e in {WMV, MPEG, MPG, MOV, AVI}
    ensures Type(e) == IMAGE <==> e in {JPG, JPEG, BMP}
    ensures Type(e) == TEXT <==> e == TXT
  {
  }

  /** Only MPEG/MPG and JPG/JPEG share a group. */
  lemma SharedGroups(a: Extensao, b: Extensao)
    requires a != b && Group(a) == Group(b)
    ensures {a, b} == {MPEG, MPG} || {a, b} == {JPG, JPEG}
  {
  }

  function FindByName(vs: seq<Extensao>, name: string): (r: Option<Extensao>)
    ensures r.Some? ==> r.value in vs && Name(r.value) == name
    ensures r.None? ==> forall e | e in vs :: Name(e) != name
  {
    if vs == [] then None
    else if Name(vs[0]) == name then Some(vs[0])
    else FindByName(vs[1..], name)
  }

  /** Extensao.valueOf: IllegalArgumentException for a name that is no constant. */
  function ValueOf(name: string): (r: Result<Extensao, Exception>)
    ensures r.Ok? <==> exists e: Extensao :: Name(e) == name
    ensures r.Ok? ==> Name(r.value) == name
  {
    ValuesListsEachConstantOnce(MP3);
    match FindByName(Values, name)
    case Some(e) => Ok(e)
    case None => Err(IllegalArgument("No enum constant Extensao." + name))
  }

  lemma ValueOfName(e: Extensao)
    ensures ValueOf(Name(e)) == Ok(e)
  {
    var r := ValueOf(Name(e));
    assert r.Ok?;
    NameDecodes(e);
    NameDecodes(r.value);
  }

  /** Decodes a constant's name from its length, first two and last characters. */
  function FromName(s: string): Option<Extensao> {
    if |s| < 3 then None
    else
      var key := (|s|, s[0], s[1], s[|s| - 1]);
      if key == (3, 'M', 'P', '3') then Some(MP3)
      else if key == (3, 'W', 'M', 'A') then Some(WMA)
      else if key == (3, 'W', 'M', 'V') then Some(WMV)
      else if key == (4, 'M', 'P', 'G') then Some(MPEG)
      else if key == (3, 'M', 'P', 'G') then Some(MPG)
      else if key == (3, 'W', 'A', 'V') then Some(WAV)
      else if key == (3, 'J', 'P', 'G') then Some(JPG)
      else if key == (4, 'J', 'P', 'G') then Some(JPEG)
      else if key == (3, 'B', 'M', 'P') then Some(BMP)
      else if key == (3, 'M', 'O', 'V') then Some(MOV)
      else if key == (3, 'A', 'V', 'I') then Some(AVI)
      else if key == (3, 'T', 'X', 'T') then Some(TXT)
      else None
  }

  /** Names are distinct: each decodes back to its constant. */
  lemma NameDecodes(e: Extensao)
    ensures FromName(Name(e)) == Some(e)
  {
  }

  /** The natural order of String, as Collections.sort uses it. */
  function StringLe(a: string, b: string): bool {
    JavaCompare(a, b) <= 0
  }

  lemma StringLeIsTotalPreorder()
    ensures TotalPreorder(StringLe)
  {
    forall a: string, b: string ensures StringLe(a, b) || StringLe(b, a) {
      CompareAntisymmetric(a, b);
    }
    forall a: string, b: string, c: string | StringLe(a, b) && StringLe(b, c) ensures StringLe(a, c) {
      CompareTransitive(a, b, c);
    }
  }

  /** The list asStrings fills before sorting it: BMP twice, MOV and AVI missing. */
  function AsStringsUnsorted(text: Extensao -> string): seq<string> {
    [text(MP3), text(WMA), text(WMV), text(MPEG), text(MPG), text(WAV),
     text(JPG), text(JPEG), text(BMP), text(BMP), text(TXT)]
  }

  /** asStrings. */
  function AsStrings(text: Extensao -> string): (r: seq<string>)
    ensures |r| == 11
    ensures multiset(r) == multiset(AsStringsUnsorted(text))
  {
    Sort(AsStringsUnsorted(text), StringLe)
  }

  lemma AsStringsSorted(text: Extensao -> string)
    ensures SortedBy(AsStrings(text), StringLe)
  {
    StringLeIsTotalPreorder();
    SortSorted(AsStringsUnsorted(text), StringLe);
  }

  /** BMP's extension is listed twice; MOV's and AVI's appear only if another constant shares their text. */
  lemma AsStringsContents(text: Extensao -> string, e: Extensao)
    ensures multiset(AsStrings(text))[text(BMP)] >= 2
    ensures text(e) in AsStrings(text) <==> text(e) in AsStringsUnsorted(text)
  {
    SortKeepsElements(AsStringsUnsorted(text), StringLe, text(e));
  }

  function FindIgnoringCase(text: Extensao -> string, vs: seq<Extensao>, s: string): (r: Option<nat>)
    ensures r.Some? ==> r.value < |vs| && EqualsIgnoreCase(text(vs[r.value]), s)
    ensures r.Some? ==> forall i | 0 <= i < r.value :: !EqualsIgnoreCase(text(vs[i]), s)
    ensures r.None? ==> forall i | 0 <= i < |vs| :: !EqualsIgnoreCase(text(vs[i]), s)
  {
    if vs == [] then None
    else if EqualsIgnoreCase(text(vs[0]), s) then Some(0)
    else match FindIgnoringCase(text, vs[1..], s)
      case Some(i) => Some(i + 1)
      case None => None
  }

  /**
   * getExtensao: the first constant, in declaration order, whose extension
   * equals the argument ignoring case; RuntimeException when none does.
   */
  function GetExtensao(text: Extensao -> string, s: string): (r: Result<Extensao, Exception>)
    ensures r.Err? <==> forall e: Extensao :: !EqualsIgnoreCase(text(e), s)
    ensures r.Ok? ==> EqualsIgnoreCase(text(r.value), s)
    ensures r.Ok? ==> exists k | 0 <= k < |Values| :: Values[k] == r.value
                        && forall i | 0 <= i < k :: !EqualsIgnoreCase(text(Values[i]), s)
  {
    match FindIgnoringCase(text, Values, s)
    case Some(k) => Ok(Values[k])
    case None =>
      forall e: Extensao ensures !EqualsIgnoreCase(text(e), s) {
        assert Values[Ordinal(e)] == e;
      }
      Err(Runtime("Valor invalido para Extensao."))
  }

  /** The extensions of the first n constants, in declaration order, that have type t. */
  function ExtensionsOfType(text: Extensao -> string, n: nat, t: FileType): (r: seq<string>)
    requires n <= |Values|
    ensures |r| <= n
    ensures forall x :: x in r <==> exists k | 0 <= k < n :: Type(Values[k]) == t && text(Values[k]) == x
  {
    if n == 0 then []
    else
      var prev := ExtensionsOfType(text, n - 1, t);
      prev + (if Type(Values[n - 1]) == t then [text(Values[n - 1])] else [])
  }

  /** getAsStringByTipo: the extensions of the constants of one type, in declaration order. */
  function GetAsStringByTipo(text: Extensao -> string, t: FileType): (r: seq<string>)
    ensures forall x :: x in r <==> exists e: Extensao :: Type(e) == t && text(e) == x
  {
    OfTypeMembers(text, t);
    ExtensionsOfType(text, |Values|, t)
  }

  /** The constants of a type are exactly the table entries of that type. */
  lemma OfTypeMembers(text: Extensao -> string, t: FileType)
    ensures forall x :: x in ExtensionsOfType(text, |Values|, t) <==> exists e: Extensao :: Type(e) == t && text(e) == x
  {
    var r := ExtensionsOfType(text, |Values|, t);
    forall x | x in r ensures exists e: Extensao :: Type(e) == t && text(e) == x {
      var k :| 0 <= k < |Values| && Type(Values[k]) == t && text(Values[k]) == x;
      var e := Values[k];
      assert Type(e) == t && text(e) == x;
    }
    forall x | exists e: Extensao :: Type(e) == t && text(e) == x ensures x in r {
      var e: Extensao :| Type(e) == t && text(e) == x;
      var k := Ordinal(e);
      assert Type(Values[k]) == t && text(Values[k]) == x;
    }
  }

  /** Constants of other types leave the list as it was. */
  lemma {:induction false} OfTypeSkips(text: Extensao -> string, t: FileType, lo: nat, hi: nat)
    requires lo <= hi <= |Values|
    requires forall k | lo <= k < hi :: Type(Values[k]) != t
    ensures ExtensionsOfType(text, hi, t) == ExtensionsOfType(text, lo, t)
    decreases hi - lo
  {
    if lo < hi {
      OfTypeSkips(text, t, lo, hi - 1);
    }
  }

  lemma AudioExtensions(text: Extensao -> string)
    ensures GetAsStringByTipo(text, AUDIO) == [text(MP3), text(WMA), text(WAV)]
  {
    assert ExtensionsOfType(text, 2, AUDIO) == ExtensionsOfType(text, 0, AUDIO) + [text(MP3)] + [text(WMA)];
    OfTypeSkips(text, AUDIO, 2, 5);
    assert ExtensionsOfType(text, 6, AUDIO) == ExtensionsOfType(text, 5, AUDIO) + [text(WAV)];
    OfTypeSkips(text, AUDIO, 6, |Values|);
  }

  lemma VideoExtensions(text: Extensao -> string)
    ensures GetAsStringByTipo(text, VIDEO) == [text(WMV), text(MPEG), text(MPG), text(MOV), text(AVI)]
  {
    OfTypeSkips(text, VIDEO, 0, 2);
    assert ExtensionsOfType(text, 5, VIDEO)
        == ExtensionsOfType(text, 2, VIDEO) + [text(WMV)] + [text(MPEG)] + [text(MPG)];
    OfTypeSkips(text, VIDEO, 5, 9);
    assert ExtensionsOfType(text, 11, VIDEO) == ExtensionsOfType(text, 9, VIDEO) + [text(MOV)] + [text(AVI)];
    OfTypeSkips(text, VIDEO, 11, |Values|);
  }

  lemma ImageExtensions(text: Extensao -> string)
    ensures GetAsStringByTipo(text, IMAGE) == [text(JPG), text(JPEG), text(BMP)]
  {
    OfTypeSkips(text, IMAGE, 0, 6);
    assert ExtensionsOfType(text, 9, IMAGE)
        == ExtensionsOfType(text, 6, IMAGE) + [text(JPG)] + [text(JPEG)] + [text(BMP)];
    OfTypeSkips(text, IMAGE, 9, |Values|);
  }

  lemma TextExtensions(text: Extensao -> string)
    ensures GetAsStringByTipo(text, TEXT) == [text(TXT)]
  {
    OfTypeSkips(text, TEXT, 0, 11);
    assert ExtensionsOfType(text, 12, TEXT) == ExtensionsOfType(text, 11, TEXT) + [text(TXT)];
  }
}
