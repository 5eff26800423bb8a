/** The fixed, ordered catalog of the sections a project file must hold, and
    the choice of the text after which a missing section is inserted. */
module Catalog {
  import opened Text
  import opened Markers

  /** Every section the completer guarantees, in the order a project file
      lists them. */
  const Sections: seq<string> := [
    "PBXBuildFile",
    "PBXContainerItemProxy",
    "PBXFileReference",
    "PBXFrameworksBuildPhase",
    "PBXGroup",
    "PBXHeadersBuildPhase",
    "PBXNativeTarget",
    "PBXProject",
    "PBXReferenceProxy",
    "PBXResourcesBuildPhase",
    "PBXSourcesBuildPhase",
    "PBXTargetDependency",
    "XCBuildConfiguration",
    "XCConfigurationList"
  ]

  /** The catalog holds fourteen distinct names made of letters only. */
  lemma CatalogNames()
    ensures |Sections| == 14
    ensures forall i :: 0 <= i < |Sections| ==> IsName(Sections[i])
    ensures Distinct(Sections)
  {
    CatalogLetters();
    CatalogDistinct();
  }

  lemma CatalogLetters()
    ensures forall i :: 0 <= i < |Sections| ==> IsName(Sections[i])
  {
    EarlyNames();
    LateNames();
  }

  lemma EarlyNames()
    ensures forall i :: 0 <= i < 7 ==> IsName(Sections[i])
  {
  }

  lemma LateNames()
    ensures forall i :: 7 <= i < |Sections| ==> IsName(Sections[i])
  {
  }

  lemma CatalogDistinct()
    ensures Distinct(Sections)
  {
  }

  /** `Array.prototype.indexOf`: the first index holding `x`, or -1. */
  function IndexOf(names: seq<string>, x: string): (r: int)
    ensures -1 <= r < |names|
    ensures r == -1 <==> x !in names
    ensures 0 <= r ==> names[r] == x && forall j :: 0 <= j < r ==> names[j] != x
  {
    if |names| == 0 then -1
    else if names[0] == x then 0
    else
      var r := IndexOf(names[1..], x);
      if r == -1 then -1 else r + 1
  }

  /** No name appears twice in `names`. */
  predicate Distinct(names: seq<string>) {
    forall i, j :: 0 <= i < j < |names| ==> names[i] != names[j]
  }

  /** In a list without repeats, looking an entry up gives back its own
      position. */
  lemma IndexOfDistinct(names: seq<string>, k: nat)
    requires Distinct(names) && k < |names|
    ensures IndexOf(names, names[k]) == k
  {
  }

  /** Looking a catalog entry up gives back its own position. */
  lemma CatalogIndex(i: nat)
    requires i < |Sections|
    ensures IndexOf(Sections, Sections[i]) == i
  {
    CatalogDistinct();
    IndexOfDistinct(Sections, i);
  }

  /** The text after which the section at catalog index `i` belongs: the
      opening of the object table for the first entry, and the end line of
      the preceding entry for every other. */
  function Anchor(i: nat): (a: string)
    requires i < |Sections|
    ensures LineThenBlank(a)
  {
    CatalogNames();
    if i == 0 then
      MarkerShapes(Sections[0]);
      ObjectsStart
    else
      MarkerShapes(Sections[i - 1]);
      EndLine(Sections[i - 1])
  }

  /** Two anchors ending at the same index of a text are the same catalog
      position's anchor. */
  lemma AnchorsEndApart(s: string, m: nat, i: nat, k: nat, j: nat)
    requires m < |Sections| && k < |Sections|
    requires OccursAt(s, Anchor(m), i) && OccursAt(s, Anchor(k), j)
    requires i + |Anchor(m)| == j + |Anchor(k)|
    ensures m == k
  {
    if |Anchor(m)| <= |Anchor(k)| {
      SameEndTail(s, Anchor(m), i, Anchor(k), j);
      AnchorTail(m, k);
    } else {
      SameEndTail(s, Anchor(k), j, Anchor(m), i);
      AnchorTail(k, m);
    }
  }

  lemma AnchorTail(m: nat, k: nat)
    requires m < |Sections| && k < |Sections| && |Anchor(m)| <= |Anchor(k)|
    requires Anchor(k)[|Anchor(k)| - |Anchor(m)|..] == Anchor(m)
    ensures m == k
  {
    CatalogNames();
    if m == 0 && k > 0 {
      ObjectsStartNoEndLineTail(Sections[k - 1]);
    } else if m > 0 && k > 0 {
      EndLineTail(Sections[m - 1], Sections[k - 1]);
      CatalogIndex(m - 1);
      CatalogIndex(k - 1);
    }
  }
}
