/** What the section completer achieves on a project file whose markers
    occur as often as the completer relies on (the object-table opening once,
    the end line of each present section once, that of each absent section
    not at all): every catalog section present afterwards, each missing one
    inserted as an empty section right after its anchor, and a second run
    changing nothing. */
module Completion {
  import opened Text
  import opened Markers
  import opened Catalog
  import opened Completer

  /** The marker layout the completer relies on: the object table opens
      once, and the end line of every catalog entry that has a successor
      (the anchor of that successor) occurs once when the entry's begin
      marker is present and not at all when it is absent. */
  predicate WellFormed(content: string) {
    Count(content, ObjectsStart) == 1 &&
    forall i :: 0 <= i < |Sections| - 1 ==>
      Count(content, EndLine(Sections[i])) == if HasSection(content, Sections[i]) then 1 else 0
  }

  /** Every catalog section is present. */
  predicate Complete(content: string) {
    forall i :: 0 <= i < |Sections| ==> HasSection(content, Sections[i])
  }

  /** The anchor of a missing entry whose predecessor is present occurs
      exactly once in a well-formed file. */
  lemma AnchorOnce(content: string, m: nat)
    requires m < |Sections| && WellFormed(content)
    requires m > 0 ==> HasSection(content, Sections[m - 1])
    ensures Count(content, Anchor(m)) == 1
  {
    CatalogNames();
  }

  /** The position of that single anchor. */
  lemma AnchorPosition(content: string, m: nat) returns (i: nat)
    requires m < |Sections| && WellFormed(content)
    requires m > 0 ==> HasSection(content, Sections[m - 1])
    ensures OccursAt(content, Anchor(m), i)
  {
    AnchorOnce(content, m);
    i :| i <= |content| && OccursAt(content, Anchor(m), i);
  }

  /** A piece that ends where an occurrence of a line followed by a blank
      line ends, ends with a blank line itself. */
  lemma CutAfterAnchor(content: string, a: string, i: nat)
    requires LineThenBlank(a) && OccursAt(content, a, i)
    ensures EndsWithBlankLine(content[..i + |a|])
  {
    OccurrenceChar(content, a, i, |a| - 1);
    OccurrenceChar(content, a, i, |a| - 2);
  }

  /** An empty section inserted right after a blank line adds its own
      begin marker and end line to the text and no other marker. */
  lemma MarkersAcrossInsert(x: string, y: string, name: string, n: string)
    requires EndsWithBlankLine(x) && IsName(name) && IsName(n)
    ensures HasSection(x + EmptySection(name) + y, n) <==> HasSection(x + y, n) || n == name
    ensures Count(x + EmptySection(name) + y, EndLine(n))
      == Count(x + y, EndLine(n)) + if n == name then 1 else 0
    ensures Count(x + EmptySection(name) + y, ObjectsStart) == Count(x + y, ObjectsStart)
  {
    var e := EmptySection(name);
    MarkerShapes(name);
    MarkerShapes(n);
    CountAroundBlankLines(x, e, y, BeginMarker(n));
    BeginMarkersInSection(name, n);
    CountAroundBlankLines(x, e, y, EndLine(n));
    EndLinesInSection(name, n);
    CountAroundBlankLines(x, e, y, ObjectsStart);
    NoObjectsStartInSection(name);
  }

  /** One pass of the loop on a well-formed file, for a missing entry whose
      predecessor is present: the empty section lands right after the anchor
      and nothing else changes, the file stays well-formed, and exactly that
      entry becomes present. */
  lemma InsertStep(content: string, m: nat, i: nat)
    requires m < |Sections| && WellFormed(content)
    requires !HasSection(content, Sections[m])
    requires m > 0 ==> HasSection(content, Sections[m - 1])
    requires OccursAt(content, Anchor(m), i)
    ensures var q := i + |Anchor(m)|;
      InsertSection(content, Sections[m]) == content[..q] + EmptySection(Sections[m]) + content[q..]
    ensures |InsertSection(content, Sections[m])| == |content| + |EmptySection(Sections[m])|
    ensures WellFormed(InsertSection(content, Sections[m]))
    ensures forall j :: 0 <= j < |Sections| ==>
      (HasSection(InsertSection(content, Sections[m]), Sections[j]) <==> HasSection(content, Sections[j]) || j == m)
  {
    var name := Sections[m];
    var q := i + |Anchor(m)|;
    SpliceAfterAnchor(content, m, i);
    CutAfterAnchor(content, Anchor(m), i);
    InsertAtBlankLine(content[..q], content[q..], m);
  }

  /** Splicing the empty section of a missing entry in after a blank line
      keeps a well-formed text well-formed and makes exactly that entry
      present. */
  lemma InsertAtBlankLine(x: string, y: string, m: nat)
    requires m < |Sections| && EndsWithBlankLine(x) && WellFormed(x + y)
    requires !HasSection(x + y, Sections[m])
    ensures WellFormed(x + EmptySection(Sections[m]) + y)
    ensures forall j :: 0 <= j < |Sections| ==>
      (HasSection(x + EmptySection(Sections[m]) + y, Sections[j]) <==> HasSection(x + y, Sections[j]) || j == m)
  {
    var name := Sections[m];
    var r := x + EmptySection(name) + y;
    CatalogNames();
    MarkersAcrossInsert(x, y, name, name);
    forall j | 0 <= j < |Sections|
      ensures HasSection(r, Sections[j]) <==> HasSection(x + y, Sections[j]) || j == m
      ensures Count(r, EndLine(Sections[j])) == Count(x + y, EndLine(Sections[j])) + if j == m then 1 else 0
    {
      MarkersAcrossInsert(x, y, name, Sections[j]);
    }
  }

  /** The splice of one pass, unfolded at the single anchor. */
  lemma SpliceAfterAnchor(content: string, m: nat, i: nat)
    requires m < |Sections| && WellFormed(content)
    requires m > 0 ==> HasSection(content, Sections[m - 1])
    requires OccursAt(content, Anchor(m), i)
    ensures var q := i + |Anchor(m)|;
      InsertSection(content, Sections[m]) == content[..q] + EmptySection(Sections[m]) + content[q..]
    ensures content == content[..i + |Anchor(m)|] + content[i + |Anchor(m)|..]
  {
    CatalogIndex(m);
    AnchorOnce(content, m);
    SpliceOnce(content, Anchor(m), EmptySection(Sections[m]), i);
  }

  /** Entries of `names` in strictly increasing catalog position. */
  predicate InCatalogOrder(names: seq<string>) {
    (forall i :: 0 <= i < |names| ==> names[i] in Sections) &&
    forall i, j :: 0 <= i < j < |names| ==> IndexOf(Sections, names[i]) < IndexOf(Sections, names[j])
  }

  /** The names still to insert are exactly the absent catalog entries. */
  predicate MissingExactly(content: string, rest: seq<string>) {
    forall j :: 0 <= j < |Sections| ==> (HasSection(content, Sections[j]) <==> Sections[j] !in rest)
  }

  /** The first name still to insert has its predecessor in place: being
      earlier in the catalog, that predecessor is not among the names still
      to insert. */
  lemma PredecessorPresent(content: string, rest: seq<string>)
    requires InCatalogOrder(rest) && MissingExactly(content, rest) && |rest| > 0
    ensures var m := IndexOf(Sections, rest[0]);
      0 <= m < |Sections| && Sections[m] == rest[0] && !HasSection(content, rest[0]) &&
      (m > 0 ==> HasSection(content, Sections[m - 1]))
  {
    var m := IndexOf(Sections, rest[0]);
    assert rest[0] in rest;
    if m > 0 {
      CatalogIndex(m - 1);
      forall k | 0 <= k < |rest| ensures rest[k] != Sections[m - 1] {
      }
    }
  }

  /** After inserting the first name, the others are exactly what is still
      absent. */
  lemma TailStillMissing(content: string, next: string, rest: seq<string>, m: nat)
    requires InCatalogOrder(rest) && MissingExactly(content, rest) && |rest| > 0
    requires m < |Sections| && Sections[m] == rest[0]
    requires forall j :: 0 <= j < |Sections| ==>
      (HasSection(next, Sections[j]) <==> HasSection(content, Sections[j]) || j == m)
    ensures InCatalogOrder(rest[1..]) && MissingExactly(next, rest[1..])
  {
    var tail := rest[1..];
    HeadThenTail(rest);
    forall j | 0 <= j < |Sections|
      ensures HasSection(next, Sections[j]) <==> Sections[j] !in tail
    {
      CatalogIndex(j);
    }
  }

  /** A list in catalog order holds its head once. */
  lemma HeadThenTail(rest: seq<string>)
    requires InCatalogOrder(rest) && |rest| > 0
    ensures forall x :: x in rest <==> x == rest[0] || x in rest[1..]
    ensures rest[0] !in rest[1..]
  {
    assert rest == [rest[0]] + rest[1..];
  }

  /** The total length of the empty sections of `names`. */
  function InsertedLength(names: seq<string>): nat {
    if |names| == 0 then 0 else |EmptySection(names[0])| + InsertedLength(names[1..])
  }

  /** The loop over the remaining missing names, taken in catalog order,
      keeps the file well-formed and leaves nothing missing. */
  lemma {:induction false} InsertAllCompletes(content: string, rest: seq<string>)
    requires WellFormed(content) && InCatalogOrder(rest) && MissingExactly(content, rest)
    ensures WellFormed(InsertAll(content, rest)) && Complete(InsertAll(content, rest))
    ensures |InsertAll(content, rest)| == |content| + InsertedLength(rest)
    decreases |rest|
  {
    if |rest| > 0 {
      PredecessorPresent(content, rest);
      var m := IndexOf(Sections, rest[0]);
      var i := AnchorPosition(content, m);
      InsertStep(content, m, i);
      var next := InsertSection(content, rest[0]);
      TailStillMissing(content, next, rest, m);
      InsertAllCompletes(next, rest[1..]);
    }
  }

  /** On a well-formed file the completer leaves every catalog section
      present and the file well-formed: a later check finds nothing
      missing. */
  lemma AddMissingCompletes(content: string)
    requires WellFormed(content)
    ensures WellFormed(AddMissingSections(content))
    ensures Complete(AddMissingSections(content))
    ensures GetMissingSections(AddMissingSections(content)) == []
    ensures |AddMissingSections(content)| == |content| + InsertedLength(GetMissingSections(content))
    ensures IsSubsequence(content, AddMissingSections(content))
  {
    var missing := GetMissingSections(content);
    InsertAllCompletes(content, missing);
    var idx := EmbedSelf(content);
    InsertAllKeepsText(content, missing, content, idx);
    AllMarkersNoneMissing(AddMissingSections(content));
  }

  /** One pass keeps the text it is given in order: an embedding of some
      text into the content carries over to the result, shifted past the
      insertion point. */
  lemma InsertKeepsText(content: string, k: nat, i: nat, q: nat, a: string, idx: seq<nat>)
    requires k < |Sections| && WellFormed(content)
    requires k > 0 ==> HasSection(content, Sections[k - 1])
    requires OccursAt(content, Anchor(k), i) && q == i + |Anchor(k)|
    requires Embedding(a, content, idx)
    ensures Embedding(a, InsertSection(content, Sections[k]), Shift(idx, q, |EmptySection(Sections[k])|))
  {
    var e := EmptySection(Sections[k]);
    var r := InsertSection(content, Sections[k]);
    assert r == content[..q] + e + content[q..] by {
      SpliceAfterAnchor(content, k, i);
    }
    EmbeddingIntoSplice(a, content, idx, q, e, r);
  }

  /** The loop over the remaining missing names keeps any text embedded in
      the content embedded in the result. */
  lemma {:induction false} InsertAllKeepsText(content: string, rest: seq<string>, a: string, idx: seq<nat>)
    requires WellFormed(content) && InCatalogOrder(rest) && MissingExactly(content, rest)
    requires Embedding(a, content, idx)
    ensures IsSubsequence(a, InsertAll(content, rest))
    decreases |rest|
  {
    if |rest| == 0 {
      assert Embedding(a, InsertAll(content, rest), idx);
    } else {
      PredecessorPresent(content, rest);
      var k := IndexOf(Sections, rest[0]);
      var i := AnchorPosition(content, k);
      InsertStep(content, k, i);
      var q := i + |Anchor(k)|;
      InsertKeepsText(content, k, i, q, a, idx);
      var next := InsertSection(content, rest[0]);
      TailStillMissing(content, next, rest, k);
      InsertAllKeepsText(next, rest[1..], a, Shift(idx, q, |EmptySection(Sections[k])|));
    }
  }

  /** Running the completer a second time changes nothing. */
  lemma AddMissingIdempotent(content: string)
    requires WellFormed(content)
    ensures AddMissingSections(AddMissingSections(content)) == AddMissingSections(content)
  {
    AddMissingCompletes(content);
  }

  /** The section at catalog position `m` sits, empty, right after its
      anchor. */
  predicate Placed(content: string, m: nat)
    requires m < |Sections|
  {
    Contains(content, Anchor(m) + EmptySection(Sections[m]))
  }

  /** The anchor of another entry cannot end strictly inside an anchor
      followed by its empty section: the only line ending with a blank line
      inside that stretch is the anchor itself. */
  lemma NoCutInside(content: string, m: nat, p: nat, k: nat, i: nat)
    requires m < |Sections| && k < |Sections|
    requires OccursAt(content, Anchor(m) + EmptySection(Sections[m]), p)
    requires OccursAt(content, Anchor(k), i)
    requires p < i + |Anchor(k)| < p + |Anchor(m) + EmptySection(Sections[m])|
    ensures m == k
  {
    var a := Anchor(k);
    assert i + |a| == p + |Anchor(m)| by {
      CatalogNames();
      CutAfterAnchorLine(content, Anchor(m), Sections[m], p, a, i);
    }
    OccursSplit(content, Anchor(m), EmptySection(Sections[m]), p);
    AnchorsEndApart(content, m, p, k, i);
  }

  /** Text inserted right after the anchor of another entry leaves a placed
      section in place. */
  lemma PlacedSurvives(content: string, k: nat, i: nat, q: nat, m: nat, e: string)
    requires m < |Sections| && k < |Sections| && m != k
    requires OccursAt(content, Anchor(k), i) && q == i + |Anchor(k)| && Placed(content, m)
    ensures Placed(content[..q] + e + content[q..], m)
  {
    var w := Anchor(m) + EmptySection(Sections[m]);
    forall p: nat | OccursAt(content, w, p) ensures q <= p || p + |w| <= q {
      CutBesidePlaced(content, k, i, m, p);
    }
    ContainsAcrossCut(content, q, e, w);
  }

  /** The cut after the anchor of another entry lies before or after a
      placed section, never inside it. */
  lemma CutBesidePlaced(content: string, k: nat, i: nat, m: nat, p: nat)
    requires m < |Sections| && k < |Sections| && m != k
    requires OccursAt(content, Anchor(k), i)
    requires OccursAt(content, Anchor(m) + EmptySection(Sections[m]), p)
    ensures var q := i + |Anchor(k)|;
      q <= p || p + |Anchor(m) + EmptySection(Sections[m])| <= q
  {
    var q := i + |Anchor(k)|;
    if p < q < p + |Anchor(m) + EmptySection(Sections[m])| {
      NoCutInside(content, m, p, k, i);
    }
  }

  /** A later pass, for another entry, leaves a placed section in place. */
  lemma InsertKeepsPlaced(content: string, k: nat, i: nat, m: nat)
    requires k < |Sections| && WellFormed(content)
    requires !HasSection(content, Sections[k])
    requires k > 0 ==> HasSection(content, Sections[k - 1])
    requires OccursAt(content, Anchor(k), i)
    requires m < |Sections| && m != k && Placed(content, m)
    ensures Placed(InsertSection(content, Sections[k]), m)
  {
    SpliceAfterAnchor(content, k, i);
    PlacedSurvives(content, k, i, i + |Anchor(k)|, m, EmptySection(Sections[k]));
  }

  /** The rest of the loop leaves a placed section that is not inserted
      again in place. */
  lemma {:induction false} InsertAllKeepsPlaced(content: string, rest: seq<string>, m: nat)
    requires WellFormed(content) && InCatalogOrder(rest) && MissingExactly(content, rest)
    requires m < |Sections| && Sections[m] !in rest && Placed(content, m)
    ensures Placed(InsertAll(content, rest), m)
    decreases |rest|
  {
    if |rest| > 0 {
      PredecessorPresent(content, rest);
      var k := IndexOf(Sections, rest[0]);
      var i := AnchorPosition(content, k);
      InsertStep(content, k, i);
      InsertKeepsPlaced(content, k, i, m);
      var next := InsertSection(content, rest[0]);
      TailStillMissing(content, next, rest, k);
      InsertAllKeepsPlaced(next, rest[1..], m);
    }
  }

  /** Every name the loop inserts ends up, empty, right after its anchor in
      the final text. */
  lemma {:induction false} InsertAllPlaces(content: string, rest: seq<string>)
    requires WellFormed(content) && InCatalogOrder(rest) && MissingExactly(content, rest)
    ensures forall x :: x in rest ==> Placed(InsertAll(content, rest), IndexOf(Sections, x))
    decreases |rest|
  {
    if |rest| > 0 {
      PredecessorPresent(content, rest);
      var m := IndexOf(Sections, rest[0]);
      var i := AnchorPosition(content, m);
      InsertStep(content, m, i);
      var next := InsertSection(content, rest[0]);
      TailStillMissing(content, next, rest, m);
      HeadThenTail(rest);
      InsertAllPlaces(next, rest[1..]);
      InsertAllKeepsPlaced(next, rest[1..], m);
    }
  }

  /** On a well-formed file every missing section ends up, empty, right
      after its anchor: the opening of the object table for the first
      catalog entry, the end line of the catalog predecessor for the
      others. */
  lemma AddMissingPlaces(content: string)
    requires WellFormed(content)
    ensures forall m :: 0 <= m < |Sections| && !HasSection(content, Sections[m]) ==>
      Contains(AddMissingSections(content), Anchor(m) + EmptySection(Sections[m]))
  {
    var missing := GetMissingSections(content);
    InsertAllPlaces(content, missing);
    forall m | 0 <= m < |Sections| && !HasSection(content, Sections[m])
      ensures Placed(AddMissingSections(content), m)
    {
      CatalogIndex(m);
      assert Sections[m] in missing;
    }
  }

  /** Two neighbouring catalog entries that are both missing end up next to
      each other and in catalog order: the second right after the freshly
      inserted end line of the first. */
  lemma AddMissingChains(content: string, m: nat)
    requires WellFormed(content) && m + 1 < |Sections|
    requires !HasSection(content, Sections[m]) && !HasSection(content, Sections[m + 1])
    ensures Contains(AddMissingSections(content),
      Anchor(m) + EmptySection(Sections[m]) + EmptySection(Sections[m + 1]))
  {
    var f := AddMissingSections(content);
    assert Placed(f, m) && Placed(f, m + 1) by {
      AddMissingPlaces(content);
    }
    assert Count(f, EndLine(Sections[m])) == 1 by {
      AddMissingCompletes(content);
    }
    ChainFromPlaced(f, m);
  }

  /** Two neighbouring entries each placed after their anchor, with the end
      line of the first occurring once, form one stretch. */
  lemma ChainFromPlaced(f: string, m: nat)
    requires m + 1 < |Sections| && Placed(f, m) && Placed(f, m + 1)
    requires Count(f, EndLine(Sections[m])) == 1
    ensures Contains(f, Anchor(m) + EmptySection(Sections[m]) + EmptySection(Sections[m + 1]))
  {
    var a := Anchor(m);
    var x := Sections[m];
    var e := EmptySection(Sections[m + 1]);
    assert Contains(f, a + BeginLine(x) + EndLine(x)) by {
      assert a + EmptySection(x) == a + BeginLine(x) + EndLine(x);
    }
    assert Contains(f, EndLine(x) + e) by {
      assert Anchor(m + 1) == EndLine(x);
    }
    ChainAtSharedLine(f, a, BeginLine(x), EndLine(x), e);
    assert a + BeginLine(x) + EndLine(x) + e == a + EmptySection(x) + e;
  }

  /** A text with the end line of a section written twice ahead of that
      section's begin marker: the section is present and no other is. */
  function RepeatedEndLine(n: string): (c: string)
    requires IsName(n)
    ensures HasSection(c, n)
    ensures forall o :: IsName(o) && o != n ==> !HasSection(c, o)
  {
    var a := EndLine(n);
    var b := BeginMarker(n);
    var c := a + a + b;
    assert c == (a + a) + b;
    MarkerShapes(n);
    assert OccursAt(c, b, 2 * |a|) by {
      assert c[2 * |a|..] == b;
    }
    forall o | IsName(o) && o != n ensures !HasSection(c, o) {
      MarkerShapes(o);
      NoStraddleAfterLineBreak(a + a, b, BeginMarker(o));
      NoStraddleAfterLineBreak(a, a, BeginMarker(o));
      CountConcat(a + a, b, BeginMarker(o));
      CountConcat(a, a, BeginMarker(o));
      EndLineHoldsNoBeginMarker(n, o);
      MarkerHoldsNoOther(n, o);
    }
    c
  }

  /** A begin marker holds no other section's begin marker. */
  lemma MarkerHoldsNoOther(n: string, o: string)
    requires IsName(n) && IsName(o) && o != n
    ensures !Contains(BeginMarker(n), BeginMarker(o))
  {
    BeginMarkersInSection(n, o);
    BeginLineHoldsMarker(n);
    if Contains(BeginMarker(n), BeginMarker(o)) {
      var j: nat :| j <= |BeginMarker(n)| && OccursAt(BeginMarker(n), BeginMarker(o), j);
      OccursWithin(EmptySection(n), BeginMarker(n), 0, BeginMarker(o), j);
    }
  }

  /** Without the layout the completer relies on, a pass can lose a section
      that was present: the splice after the end line of `n`, which occurs
      twice, keeps nothing after the second copy, and with it the begin
      marker of `n`. */
  lemma RepeatedAnchorLoses(n: string, o: string)
    requires IsName(n) && IsName(o) && o != n
    ensures !HasSection(Splice(RepeatedEndLine(n), EndLine(n), EmptySection(o)), n)
  {
    var a := EndLine(n);
    var c := RepeatedEndLine(n);
    assert c == a + a + BeginMarker(n);
    assert OccursAt(c, a, 0) && OccursAt(c, a, |a|) by {
      assert c[..|a|] == a;
      assert c[|a|..2 * |a|] == a;
    }
    assert FindFrom(c, a, 0) == Some(0);
    assert FindFrom(c, a, |a|) == Some(|a|);
    SpliceRepeated(c, a, EmptySection(o), 0, |a|);
    assert Splice(c, a, EmptySection(o)) == a + EmptySection(o) + [];
    MarkerShapes(n);
    MarkerShapes(o);
    CountAroundBlankLines(a, EmptySection(o), [], BeginMarker(n));
    BeginMarkersInSection(o, n);
    EndLineHoldsNoBeginMarker(n, n);
  }

  /** In catalog terms: with the first entry's end line written twice
      ahead of its begin marker, the second entry is missing, and inserting
      it loses the first. */
  lemma RepeatedAnchorLosesSection()
    ensures !HasSection(RepeatedEndLine(Sections[0]), Sections[1])
    ensures !HasSection(InsertSection(RepeatedEndLine(Sections[0]), Sections[1]), Sections[0])
  {
    CatalogNames();
    CatalogIndex(1);
    RepeatedAnchorLoses(Sections[0], Sections[1]);
  }

  /** The only catalog-shaped markers of `c` are those of one empty section
      for `n`, next to a single opening of the object table. */
  ghost predicate OnlySection(c: string, n: string) {
    Count(c, ObjectsStart) == 1 &&
    (forall o :: IsName(o) ==> Count(c, EndLine(o)) == if o == n then 1 else 0) &&
    (forall o :: IsName(o) ==> (HasSection(c, o) <==> o == n))
  }

  /** A text holding one empty section ahead of the opening of the object
      table, which is not where Xcode puts a section. */
  function SectionThenObjects(n: string): (c: string)
    requires IsName(n)
    ensures OnlySection(c, n)
  {
    var e := EmptySection(n);
    var c := e + ObjectsStart;
    MarkerShapes(n);
    NoObjectsStartInSection(n);
    NoStraddleAfterBlankLine(e, ObjectsStart, ObjectsStart);
    CountConcat(e, ObjectsStart, ObjectsStart);
    assert OccursAt(ObjectsStart, ObjectsStart, 0);
    CountSingle(ObjectsStart, ObjectsStart, 0);
    forall o | IsName(o)
      ensures Count(c, EndLine(o)) == if o == n then 1 else 0
      ensures HasSection(c, o) <==> o == n
    {
      MarkerShapes(o);
      NoStraddleAfterBlankLine(e, ObjectsStart, EndLine(o));
      CountConcat(e, ObjectsStart, EndLine(o));
      EndLinesInSection(n, o);
      ObjectsStartNoEndLineTail(o);
      NoStraddleAfterLineBreak(e, ObjectsStart, BeginMarker(o));
      CountConcat(e, ObjectsStart, BeginMarker(o));
      BeginMarkersInSection(n, o);
    }
    c
  }

  /** A text holding the opening of the object table followed by one empty
      section, the order in which Xcode writes them. */
  function ObjectsThenSection(n: string): (c: string)
    requires IsName(n)
    ensures OnlySection(c, n)
  {
    var e := EmptySection(n);
    var c := ObjectsStart + e;
    MarkerShapes(n);
    NoObjectsStartInSection(n);
    NoStraddleAfterBlankLine(ObjectsStart, e, ObjectsStart);
    CountConcat(ObjectsStart, e, ObjectsStart);
    assert OccursAt(ObjectsStart, ObjectsStart, 0);
    CountSingle(ObjectsStart, ObjectsStart, 0);
    forall o | IsName(o)
      ensures Count(c, EndLine(o)) == if o == n then 1 else 0
      ensures HasSection(c, o) <==> o == n
    {
      MarkerShapes(o);
      NoStraddleAfterBlankLine(ObjectsStart, e, EndLine(o));
      CountConcat(ObjectsStart, e, EndLine(o));
      EndLinesInSection(n, o);
      ObjectsStartNoEndLineTail(o);
      assert Count(ObjectsStart, EndLine(o)) == 0;
      NoStraddleAfterLineBreak(ObjectsStart, e, BeginMarker(o));
      CountConcat(ObjectsStart, e, BeginMarker(o));
      assert Count(ObjectsStart, BeginMarker(o)) == 0;
      BeginMarkersInSection(n, o);
    }
    c
  }

  /** Such a text is well-formed whatever side of the opening the section
      sits on. */
  lemma OnlySectionWellFormed(c: string, n: string)
    requires IsName(n) && OnlySection(c, n)
    ensures WellFormed(c)
  {
    CatalogNames();
    forall i | 0 <= i < |Sections| - 1
      ensures Count(c, EndLine(Sections[i])) == if HasSection(c, Sections[i]) then 1 else 0
    {
      assert IsName(Sections[i]);
    }
  }

  /** With only the second catalog section present, the first two names
      found missing are the first and the third catalog entries. */
  lemma SecondOnlyMissing(c: string)
    requires OnlySection(c, Sections[1])
    ensures var r := GetMissingSections(c); |r| >= 2 && r[0] == Sections[0] && r[1] == Sections[2]
  {
    CatalogNames();
    assert IsName(Sections[0]) && IsName(Sections[2]);
    assert Sections[0] != Sections[1] && Sections[2] != Sections[1];
    FirstTwoMissing(c);
  }

  /** With the first catalog entry missing, it is the first name found
      missing. */
  lemma FirstMissingHead(c: string)
    requires !HasSection(c, Sections[0])
    ensures var r := GetMissingSections(c); |r| >= 1 && r[0] == Sections[0]
  {
    var r := GetMissingSections(c);
    CatalogIndex(0);
    assert Sections[0] in r;
    var p0 :| 0 <= p0 < |r| && r[p0] == Sections[0];
    assert p0 == 0;
  }

  /** With the first and third catalog entries missing and the second
      present, those two are the first names found missing. */
  lemma FirstTwoMissing(c: string)
    requires !HasSection(c, Sections[0]) && HasSection(c, Sections[1]) && !HasSection(c, Sections[2])
    ensures var r := GetMissingSections(c); |r| >= 2 && r[0] == Sections[0] && r[1] == Sections[2]
  {
    var r := GetMissingSections(c);
    FirstMissingHead(c);
    CatalogIndex(2);
    assert Sections[2] in r;
    var p2 :| 0 <= p2 < |r| && r[p2] == Sections[2];
    assert p2 != 0 && |r| >= 2;
    var j := IndexOf(Sections, r[1]);
    assert 0 < j && Sections[j] == r[1] by {
      CatalogIndex(0);
    }
    assert !HasSection(c, r[1]) by {
      assert r[1] in r;
    }
    assert j != 1;
    assert p2 == 1;
  }

  /** Two splices on the text with the section ahead of the table: the
      empty section of `n0` after the opening of the object table, then the
      one of `n2` after the end line of `n1`. The second lands ahead of the
      first. */
  lemma TwoSplices(n0: string, n1: string, n2: string)
    requires IsName(n0) && IsName(n1) && IsName(n2) && n0 != n1
    ensures Splice(Splice(SectionThenObjects(n1), ObjectsStart, EmptySection(n0)), EndLine(n1), EmptySection(n2))
      == EmptySection(n1) + EmptySection(n2) + ObjectsStart + EmptySection(n0)
  {
    FirstSplice(n0, n1);
    SecondSplice(n0, n1, n2);
  }

  lemma FirstSplice(n0: string, n1: string)
    requires IsName(n0) && IsName(n1)
    ensures Splice(SectionThenObjects(n1), ObjectsStart, EmptySection(n0))
      == EmptySection(n1) + ObjectsStart + EmptySection(n0)
  {
    assert SectionThenObjects(n1) == EmptySection(n1) + ObjectsStart + [];
    SpliceBetween(EmptySection(n1), ObjectsStart, [], EmptySection(n0));
  }

  lemma SecondSplice(n0: string, n1: string, n2: string)
    requires IsName(n0) && IsName(n1) && IsName(n2) && n0 != n1
    ensures Splice(EmptySection(n1) + ObjectsStart + EmptySection(n0), EndLine(n1), EmptySection(n2))
      == EmptySection(n1) + EmptySection(n2) + ObjectsStart + EmptySection(n0)
  {
    var y := ObjectsStart + EmptySection(n0);
    EndLineOnceBeforeObjects(n0, n1);
    assert EmptySection(n1) + ObjectsStart + EmptySection(n0) == BeginLine(n1) + EndLine(n1) + y;
    SpliceBetween(BeginLine(n1), EndLine(n1), y, EmptySection(n2));
  }

  lemma EndLineOnceBeforeObjects(n0: string, n1: string)
    requires IsName(n0) && IsName(n1) && n0 != n1
    ensures Count(EmptySection(n1) + ObjectsStart + EmptySection(n0), EndLine(n1)) == 1
  {
    var c := SectionThenObjects(n1);
    MarkerShapes(n0);
    MarkerShapes(n1);
    CountAroundBlankLines(c, EmptySection(n0), [], EndLine(n1));
    EndLinesInSection(n0, n1);
    assert c + EmptySection(n0) + [] == EmptySection(n1) + ObjectsStart + EmptySection(n0);
    assert c + [] == c;
  }

  /** The same two splices on the text laid out as Xcode writes it keep the
      three sections in catalog order. */
  lemma TwoSplicesInOrder(n0: string, n1: string, n2: string)
    requires IsName(n0) && IsName(n1) && IsName(n2) && n0 != n1
    ensures Splice(Splice(ObjectsThenSection(n1), ObjectsStart, EmptySection(n0)), EndLine(n1), EmptySection(n2))
      == ObjectsStart + EmptySection(n0) + EmptySection(n1) + EmptySection(n2)
  {
    FirstSpliceInOrder(n0, n1);
    SecondSpliceInOrder(n0, n1, n2);
  }

  lemma FirstSpliceInOrder(n0: string, n1: string)
    requires IsName(n0) && IsName(n1)
    ensures Splice(ObjectsThenSection(n1), ObjectsStart, EmptySection(n0))
      == ObjectsStart + EmptySection(n0) + EmptySection(n1)
  {
    assert ObjectsThenSection(n1) == [] + ObjectsStart + EmptySection(n1);
    SpliceBetween([], ObjectsStart, EmptySection(n1), EmptySection(n0));
    assert [] + ObjectsStart + EmptySection(n0) + EmptySection(n1)
      == ObjectsStart + EmptySection(n0) + EmptySection(n1);
  }

  lemma SecondSpliceInOrder(n0: string, n1: string, n2: string)
    requires IsName(n0) && IsName(n1) && IsName(n2) && n0 != n1
    ensures Splice(ObjectsStart + EmptySection(n0) + EmptySection(n1), EndLine(n1), EmptySection(n2))
      == ObjectsStart + EmptySection(n0) + EmptySection(n1) + EmptySection(n2)
  {
    EndLineOnceAfterObjects(n0, n1);
    SpliceAtEnd(ObjectsStart + EmptySection(n0), BeginLine(n1), EndLine(n1), EmptySection(n2));
  }

  /** A splice after an anchor that occurs once, at the very end. */
  lemma SpliceAtEnd(x: string, b: string, l: string, e: string)
    requires |l| > 0 && Count(x + (b + l), l) == 1
    ensures Splice(x + (b + l), l, e) == x + (b + l) + e
  {
    var w := x + b + l;
    assert x + (b + l) == w;
    assert w == x + b + l + [];
    SpliceBetween(x + b, l, [], e);
    assert x + b + l + e + [] == w + e;
  }

  lemma EndLineOnceAfterObjects(n0: string, n1: string)
    requires IsName(n0) && IsName(n1) && n0 != n1
    ensures Count(ObjectsStart + EmptySection(n0) + EmptySection(n1), EndLine(n1)) == 1
  {
    var c := ObjectsThenSection(n1);
    MarkerShapes(n0);
    MarkerShapes(n1);
    CountAroundBlankLines(ObjectsStart, EmptySection(n0), EmptySection(n1), EndLine(n1));
    EndLinesInSection(n0, n1);
    assert ObjectsStart + EmptySection(n1) == c;
  }

  // The two witnesses below take the catalog names as parameters pinned by
  // their requires, which keeps the literal names out of the solver's way.

  /** The completer can insert sections out of catalog order on a
      well-formed file that holds a section ahead of the object table. With
      only the second catalog section present, there, the first two passes
      insert the first and the third catalog entries, and the third lands
      ahead of the first. */
  lemma OutOfOrderInsert(n0: string, n1: string, n2: string)
    requires n0 == Sections[0] && n1 == Sections[1] && n2 == Sections[2]
    ensures WellFormed(SectionThenObjects(n1))
    ensures var r := GetMissingSections(SectionThenObjects(n1));
      |r| >= 2 && r[0] == n0 && r[1] == n2
    ensures InsertSection(InsertSection(SectionThenObjects(n1), n0), n2)
      == EmptySection(n1) + EmptySection(n2) + ObjectsStart + EmptySection(n0)
  {
    CatalogNames();
    OnlySectionWellFormed(SectionThenObjects(n1), n1);
    SecondOnlyMissing(SectionThenObjects(n1));
    CatalogIndex(0);
    CatalogIndex(2);
    TwoSplices(n0, n1, n2);
  }

  /** On the same section placed after the opening of the object table, as
      Xcode writes it, the same two passes keep catalog order. */
  lemma InOrderInsert(n0: string, n1: string, n2: string)
    requires n0 == Sections[0] && n1 == Sections[1] && n2 == Sections[2]
    ensures WellFormed(ObjectsThenSection(n1))
    ensures var r := GetMissingSections(ObjectsThenSection(n1));
      |r| >= 2 && r[0] == n0 && r[1] == n2
    ensures InsertSection(InsertSection(ObjectsThenSection(n1), n0), n2)
      == ObjectsStart + EmptySection(n0) + EmptySection(n1) + EmptySection(n2)
  {
    CatalogNames();
    OnlySectionWellFormed(ObjectsThenSection(n1), n1);
    SecondOnlyMissing(ObjectsThenSection(n1));
    CatalogIndex(0);
    CatalogIndex(2);
    TwoSplicesInOrder(n0, n1, n2);
  }
}
