/** The section completer of `lib/pbxProjectFileUtils.js`: which catalog
    sections a project file lacks, and the text with empty stand-ins for them
    spliced in. File reading and writing are left to the caller: both
    operations take the file's content and the second returns the content
    that would be written back. */
module Completer {
  import opened Text
  import opened Markers
  import opened Catalog

  /** The begin-marker test of a section against the file's content. */
  predicate HasSection(content: string, name: string) {
    Contains(content, BeginMarker(name))
  }

  /** `filter` of `names` down to those whose begin marker is absent. */
  function MissingAmong(names: seq<string>, content: string): (r: seq<string>)
    ensures forall x :: x in r <==> x in names && !HasSection(content, x)
    ensures |r| <= |names|
  {
    if |names| == 0 then []
    else
      assert names == [names[0]] + names[1..];
      (if HasSection(content, names[0]) then [] else [names[0]]) + MissingAmong(names[1..], content)
  }

  /** `getMissingSections`: the catalog entries the content lacks, in catalog
      order. */
  function GetMissingSections(content: string): (r: seq<string>)
    ensures forall x :: x in r <==> x in Sections && !HasSection(content, x)
    ensures forall i, j :: 0 <= i < j < |r| ==> IndexOf(Sections, r[i]) < IndexOf(Sections, r[j])
    ensures Distinct(r) && |r| <= |Sections|
  {
    MissingInCatalogOrder(content, 0);
    assert Sections[0..] == Sections;
    MissingAmong(Sections, content)
  }

  lemma MissingInCatalogOrder(content: string, k: nat)
    requires k <= |Sections|
    ensures FromIndex(Sections, MissingAmong(Sections[k..], content), k)
    ensures Ordered(Sections, MissingAmong(Sections[k..], content))
  {
    CatalogNames();
    FilterInOrder(Sections, content, k);
  }

  /** Every entry of `r` sits at index `k` or later in `names`. */
  predicate FromIndex(names: seq<string>, r: seq<string>, k: nat) {
    forall i :: 0 <= i < |r| ==> k <= IndexOf(names, r[i])
  }

  /** The entries of `r` appear in `names` in the same order. */
  predicate Ordered(names: seq<string>, r: seq<string>) {
    forall i, j :: 0 <= i < j < |r| ==> IndexOf(names, r[i]) < IndexOf(names, r[j])
  }

  /** The filter of `names[k..]` unfolded once. */
  lemma MissingAmongStep(names: seq<string>, content: string, k: nat)
    requires k < |names|
    ensures MissingAmong(names[k..], content) ==
      if HasSection(content, names[k]) then MissingAmong(names[k + 1..], content)
      else [names[k]] + MissingAmong(names[k + 1..], content)
  {
    assert names[k..][0] == names[k];
    assert names[k..][1..] == names[k + 1..];
  }

  /** Putting the entry at index `k` in front of entries from later indices
      keeps the order. */
  lemma ConsInOrder(names: seq<string>, k: nat, tail: seq<string>)
    requires Distinct(names) && k < |names|
    requires FromIndex(names, tail, k + 1) && Ordered(names, tail)
    ensures FromIndex(names, [names[k]] + tail, k) && Ordered(names, [names[k]] + tail)
  {
    IndexOfDistinct(names, k);
    var r := [names[k]] + tail;
    forall i | 0 < i < |r| ensures r[i] == tail[i - 1] {
    }
  }

  /** Filtering `names[k..]` of a list of distinct names keeps entries at
      index `k` or later, in list order. */
  lemma {:induction false} FilterInOrder(names: seq<string>, content: string, k: nat)
    requires Distinct(names) && k <= |names|
    ensures FromIndex(names, MissingAmong(names[k..], content), k)
    ensures Ordered(names, MissingAmong(names[k..], content))
    decreases |names| - k
  {
    if k < |names| {
      FilterInOrder(names, content, k + 1);
      MissingAmongStep(names, content, k);
      if !HasSection(content, names[k]) {
        ConsInOrder(names, k, MissingAmong(names[k + 1..], content));
      }
    }
  }

  /** One pass of the loop body with the anchor already chosen: cut the
      content at every occurrence of `anchor`, then join the first piece,
      the anchor, the inserted text and the second piece. */
  function Splice(content: string, anchor: string, ins: string): (r: string)
    ensures Contains(r, anchor + ins)
    ensures |anchor| > 0 ==> |r| <= |content| + |anchor| + |ins|
  {
    var pieces := Split(content, anchor);
    var r := Part(pieces, 0) + anchor + ins + Part(pieces, 1);
    assert OccursAt(r, anchor + ins, |Part(pieces, 0)|) by {
      assert r[|Part(pieces, 0)|..|Part(pieces, 0)| + |anchor + ins|] == anchor + ins;
    }
    if |anchor| > 0 && |pieces| >= 2 then
      JoinedLength(pieces, anchor);
      r
    else
      r
  }

  /** The loop body for one missing section: the anchor chosen from the
      section's catalog index, then the splice of its empty section. */
  function InsertSection(content: string, name: string): (r: string)
    requires name in Sections
    ensures Contains(r, Anchor(IndexOf(Sections, name)) + EmptySection(name))
    ensures HasSection(r, name)
  {
    var anchor := Anchor(IndexOf(Sections, name));
    var r := Splice(content, anchor, EmptySection(name));
    AnchoredSectionHasMarker(r, anchor, name);
    r
  }

  lemma AnchoredSectionHasMarker(s: string, anchor: string, name: string)
    requires Contains(s, anchor + EmptySection(name))
    ensures HasSection(s, name)
  {
    var k: nat :| OccursAt(s, anchor + EmptySection(name), k);
    BeginLineHoldsMarker(name);
    OccursAfter(anchor, EmptySection(name), BeginMarker(name), 0);
    OccursWithin(s, anchor + EmptySection(name), k, BeginMarker(name), |anchor|);
  }

  /** The loop over the missing names, in the order given. */
  function InsertAll(content: string, names: seq<string>): (r: string)
    requires forall i :: 0 <= i < |names| ==> names[i] in Sections
    ensures |names| > 0 ==> HasSection(r, names[|names| - 1])
    decreases |names|
  {
    if |names| == 0 then content
    else InsertAll(InsertSection(content, names[0]), names[1..])
  }

  /** `addMissingSectionsToPbxProj`: the content with an empty section
      spliced in for every missing catalog entry, in catalog order. */
  function AddMissingSections(content: string): (r: string)
    ensures GetMissingSections(content) == [] ==> r == content
    ensures GetMissingSections(content) != [] ==>
      HasSection(r, GetMissingSections(content)[|GetMissingSections(content)| - 1])
  {
    InsertAll(content, GetMissingSections(content))
  }

  /** The same, for a content written as the text before the anchor, the
      anchor, and the text after it. */
  lemma SpliceBetween(x: string, anchor: string, y: string, ins: string)
    requires |anchor| > 0 && Count(x + anchor + y, anchor) == 1
    ensures Splice(x + anchor + y, anchor, ins) == x + anchor + ins + y
  {
    var s := x + anchor + y;
    assert OccursAt(s, anchor, |x|) by {
      assert s[|x|..|x| + |anchor|] == anchor;
    }
    SpliceOnce(s, anchor, ins, |x|);
    assert s[..|x| + |anchor|] == x + anchor;
    assert s[|x| + |anchor|..] == y;
  }

  /** With the anchor occurring exactly once, the splice inserts `ins` right
      after it and changes nothing else. */
  lemma SpliceOnce(content: string, anchor: string, ins: string, i: nat)
    requires |anchor| > 0 && OccursAt(content, anchor, i) && Count(content, anchor) == 1
    ensures Splice(content, anchor, ins)
      == content[..i + |anchor|] + ins + content[i + |anchor|..]
    ensures |Splice(content, anchor, ins)| == |content| + |ins|
    ensures var r := Splice(content, anchor, ins);
      r[..i + |anchor|] + r[i + |anchor| + |ins|..] == content
  {
    OnlyOccurrence(content, anchor, i);
    var rest := content[i + |anchor|..];
    assert FindFrom(content, anchor, 0) == Some(i);
    forall j: nat ensures !OccursAt(rest, anchor, j) {
      OccursInSuffix(content, i + |anchor|, anchor, j);
    }
    assert FindFrom(rest, anchor, 0) == None;
    SplitWithout(rest, anchor);
    SplitAtFirst(content, anchor, i);
    assert Split(content, anchor) == [content[..i], rest];
    assert content[..i + |anchor|] == content[..i] + anchor by {
      assert content[i..i + |anchor|] == anchor;
    }
    var r := Splice(content, anchor, ins);
    assert r == content[..i + |anchor|] + ins + rest;
    assert r[..i + |anchor|] == content[..i + |anchor|];
    assert r[i + |anchor| + |ins|..] == rest;
  }

  /** Without the anchor, `split` yields one piece and the second reads as
      empty: anchor and inserted text land after the whole content. */
  lemma SpliceAbsent(content: string, anchor: string, ins: string)
    requires |anchor| > 0 && !Contains(content, anchor)
    ensures Splice(content, anchor, ins) == content + anchor + ins
  {
    assert FindFrom(content, anchor, 0) == None;
    SplitWithout(content, anchor);
  }

  /** With a second occurrence of the anchor, only the text up to it is
      kept: everything from the second occurrence on is lost. */
  lemma SpliceRepeated(content: string, anchor: string, ins: string, i: nat, j: nat)
    requires |anchor| > 0
    requires FindFrom(content, anchor, 0) == Some(i)
    requires FindFrom(content, anchor, i + |anchor|) == Some(j)
    ensures i + |anchor| <= j
    ensures Splice(content, anchor, ins)
      == content[..i + |anchor|] + ins + content[i + |anchor|..j]
    ensures |Splice(content, anchor, ins)| + |anchor| <= |content| + |ins|
  {
    SplitFirstTwo(content, anchor, i, j);
    SpliceUnfold(content, anchor, ins);
    PrefixThroughOccurrence(content, anchor, i);
  }

  lemma SpliceUnfold(content: string, anchor: string, ins: string)
    ensures Splice(content, anchor, ins)
      == Part(Split(content, anchor), 0) + anchor + ins + Part(Split(content, anchor), 1)
  {
  }

  /** A content holding none of the catalog's begin markers lacks every
      section, in catalog order. */
  lemma NoMarkersAllMissing(content: string)
    requires forall i :: 0 <= i < |Sections| ==> !HasSection(content, Sections[i])
    ensures GetMissingSections(content) == Sections
  {
    NoneFound(Sections, content);
  }

  lemma {:induction false} NoneFound(names: seq<string>, content: string)
    requires forall i :: 0 <= i < |names| ==> !HasSection(content, names[i])
    ensures MissingAmong(names, content) == names
    decreases |names|
  {
    if |names| > 0 {
      NoneFound(names[1..], content);
    }
  }

  lemma HeadIsMember(r: seq<string>)
    requires |r| > 0
    ensures r[0] in r
  {
  }

  /** A content holding every begin marker of the catalog lacks nothing. */
  lemma AllMarkersNoneMissing(content: string)
    requires forall i :: 0 <= i < |Sections| ==> HasSection(content, Sections[i])
    ensures GetMissingSections(content) == []
  {
    var r := GetMissingSections(content);
    if |r| > 0 {
      HeadIsMember(r);
    }
  }
}
