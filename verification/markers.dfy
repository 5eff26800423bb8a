/** The comment markers of an Xcode `project.pbxproj` file that the section
    completer searches for and writes, and the facts about their characters
    that keep one marker from being mistaken for another. */
module Markers {
  import opened Text

  predicate IsLetter(c: char) {
    'A' <= c <= 'Z' || 'a' <= c <= 'z'
  }

  /** A section name: a non-empty run of ASCII letters, as every catalog
      entry is. */
  predicate IsName(s: string) {
    |s| > 0 && forall c | c in s :: IsLetter(c)
  }

  lemma NameChar(name: string, i: nat)
    requires IsName(name) && i < |name|
    ensures IsLetter(name[i])
  {
    assert name[i] in name;
  }

  /** The text the begin-marker regular expression of a section matches. */
  function BeginMarker(name: string): string {
    "/* Begin " + name + " section */"
  }

  /** The begin-marker line the completer writes for a section. */
  function BeginLine(name: string): string {
    "/* Begin " + name + " section */\n"
  }

  /** The end-marker line of a section followed by a blank line, both as the
      completer writes it and as it searches for it. */
  function EndLine(name: string): string {
    "/* End " + name + " section */\n\n"
  }

  /** The opening of the object table followed by a blank line. */
  const ObjectsStart: string := "objects = {\n\n"

  /** The empty section the completer inserts for `name`. */
  function EmptySection(name: string): string {
    BeginLine(name) + EndLine(name)
  }

  /** The written begin line is the searched-for marker plus a line break,
      and the empty section starts with that marker. */
  lemma BeginLineHoldsMarker(name: string)
    ensures BeginLine(name) == BeginMarker(name) + "\n"
    ensures OccursAt(EmptySection(name), BeginMarker(name), 0)
  {
    var e := EmptySection(name);
    assert e[0..|BeginMarker(name)|] == BeginMarker(name);
  }

  /** Line structure of the markers: a begin marker is one line, an end line
      and the object-table opening are one line followed by a blank line. */
  lemma MarkerShapes(name: string)
    requires IsName(name)
    ensures SingleLine(BeginMarker(name))
    ensures EndsWithLineBreak(BeginLine(name))
    ensures LineThenBlank(EndLine(name))
    ensures EndsWithBlankLine(EmptySection(name))
    ensures LineThenBlank(ObjectsStart)
  {
    var b := BeginMarker(name);
    forall i | 0 <= i < |b| ensures b[i] != '\n' {
      if 9 <= i < 9 + |name| {
        NameChar(name, i - 9);
      }
    }
    var l := EndLine(name);
    forall i | 0 <= i < |l| - 2 ensures l[i] != '\n' {
      if 7 <= i < 7 + |name| {
        NameChar(name, i - 7);
      }
    }
  }

  /** In an empty section a slash followed by a star appears only where its two
      markers start. */
  lemma CommentOpenings(name: string)
    requires IsName(name)
    ensures forall i :: 0 <= i < |EmptySection(name)| - 1 ==>
      (EmptySection(name)[i] == '/' && EmptySection(name)[i + 1] == '*' ==> i == 0 || i == |BeginLine(name)|)
  {
    var e := EmptySection(name);
    var b := |BeginLine(name)|;
    forall i | 0 <= i < |e| - 1 && e[i] == '/' && e[i + 1] == '*' ensures i == 0 || i == b {
      if 9 <= i < 9 + |name| {
        NameChar(name, i - 9);
      } else if b + 7 <= i < b + 7 + |name| {
        NameChar(name, i - b - 7);
      }
    }
  }

  /** An empty section holds no `{`, the brace of the object-table opening. */
  lemma NoBrace(name: string)
    requires IsName(name)
    ensures forall i :: 0 <= i < |EmptySection(name)| ==> EmptySection(name)[i] != '{'
  {
    var e := EmptySection(name);
    var b := |BeginLine(name)|;
    forall i | 0 <= i < |e| ensures e[i] != '{' {
      if 9 <= i < 9 + |name| {
        NameChar(name, i - 9);
      } else if b + 7 <= i < b + 7 + |name| {
        NameChar(name, i - b - 7);
      }
    }
  }

  /** Two strings occurring at the same index agree where both have text. */
  lemma SameStartAgree(s: string, x: string, y: string, k: nat, i: nat)
    requires OccursAt(s, x, k) && OccursAt(s, y, k) && i < |x| && i < |y|
    ensures x[i] == y[i]
  {
    OccurrenceChar(s, x, k, i);
    OccurrenceChar(s, y, k, i);
  }

  /** Two markers that start at the same index, share the text before the
      name and have a non-letter right after the name, carry the same name. */
  lemma SameName(s: string, k: nat, pre: string, m: string, post: string, n: string, post': string)
    requires IsName(m) && IsName(n)
    requires |post| > 0 && !IsLetter(post[0]) && |post'| > 0 && !IsLetter(post'[0])
    requires OccursAt(s, pre + m + post, k) && OccursAt(s, pre + n + post', k)
    ensures m == n
  {
    var x := pre + m + post;
    var y := pre + n + post';
    if |m| < |n| {
      SameStartAgree(s, x, y, k, |pre| + |m|);
    } else if |n| < |m| {
      SameStartAgree(s, x, y, k, |pre| + |n|);
    } else {
      forall i | 0 <= i < |m| ensures m[i] == n[i] {
        SameStartAgree(s, x, y, k, |pre| + i);
      }
    }
  }

  /** The empty section of `n` holds the end line of `m` once when the names
      are the same, and not at all otherwise. */
  lemma EndLinesInSection(n: string, m: string)
    requires IsName(n) && IsName(m)
    ensures Count(EmptySection(n), EndLine(m)) == if m == n then 1 else 0
  {
    var e := EmptySection(n);
    var b := |BeginLine(n)|;
    CommentOpenings(n);
    forall j: nat | OccursAt(e, EndLine(m), j) ensures j == b {
      OccurrenceChar(e, EndLine(m), j, 0);
      OccurrenceChar(e, EndLine(m), j, 1);
      OccurrenceChar(e, EndLine(m), j, 3);
    }
    CountSingle(e, EndLine(m), b);
    assert OccursAt(e, EndLine(n), b) by {
      assert e[b..b + |EndLine(n)|] == EndLine(n);
    }
    if OccursAt(e, EndLine(m), b) {
      SameName(e, b, "/* End ", m, " section */\n\n", n, " section */\n\n");
    }
  }

  /** An empty section never holds the object-table opening. */
  lemma NoObjectsStartInSection(n: string)
    requires IsName(n)
    ensures Count(EmptySection(n), ObjectsStart) == 0
  {
    var e := EmptySection(n);
    NoBrace(n);
    forall j: nat | j <= |e| ensures !OccursAt(e, ObjectsStart, j) {
      if OccursAt(e, ObjectsStart, j) {
        OccurrenceChar(e, ObjectsStart, j, 10);
      }
    }
  }

  /** The empty section of `n` holds the begin marker of `m` exactly when the
      names are the same. */
  lemma BeginMarkersInSection(n: string, m: string)
    requires IsName(n) && IsName(m)
    ensures Contains(EmptySection(n), BeginMarker(m)) <==> m == n
  {
    var e := EmptySection(n);
    var b := |BeginLine(n)|;
    BeginLineHoldsMarker(n);
    CommentOpenings(n);
    forall j: nat | OccursAt(e, BeginMarker(m), j) ensures m == n {
      OccurrenceChar(e, BeginMarker(m), j, 0);
      OccurrenceChar(e, BeginMarker(m), j, 1);
      OccurrenceChar(e, BeginMarker(m), j, 3);
      if j == 0 {
        SameName(e, 0, "/* Begin ", m, " section */", n, " section */");
      }
    }
  }

  /** Where the line breaks of an anchor followed by an empty section lie:
      the two closing the anchor, the one closing the begin line and the two
      closing the end line. */
  lemma LineBreaksAfterAnchor(a: string, name: string)
    requires LineThenBlank(a) && IsName(name)
    ensures var w := a + EmptySection(name);
      forall i :: 0 <= i < |w| && w[i] == '\n' ==>
        i == |a| - 2 || i == |a| - 1 || i == |a| + |BeginLine(name)| - 1 || i >= |w| - 2
  {
    var w := a + EmptySection(name);
    var b := |a| + |BeginLine(name)|;
    MarkerShapes(name);
    BeginLineHoldsMarker(name);
    forall i | 0 <= i < |w| && w[i] == '\n'
      ensures i == |a| - 2 || i == |a| - 1 || i == b - 1 || i >= |w| - 2
    {
      if i < |a| {
        assert w[i] == a[i];
      } else if i >= b {
        assert w[i] == EndLine(name)[i - b];
      }
    }
  }

  /** No end line is a proper tail of another: two end lines ending at the
      same place are the same end line. */
  lemma EndLineTail(a: string, b: string)
    requires IsName(a) && IsName(b) && |EndLine(a)| <= |EndLine(b)|
    requires EndLine(b)[|EndLine(b)| - |EndLine(a)|..] == EndLine(a)
    ensures a == b
  {
    var x := EndLine(a);
    var y := EndLine(b);
    var d := |y| - |x|;
    if d > 0 {
      assert y[d..][0] == x[0];
      if d >= 7 {
        NameChar(b, d - 7);
      }
    } else {
      forall i | 0 <= i < |a| ensures a[i] == b[i] {
        assert x[7 + i] == y[7 + i];
      }
    }
  }

  /** The object table opening is shorter than any end line and no tail of
      one, so the two never end at the same place. */
  lemma ObjectsStartNoEndLineTail(b: string)
    ensures |ObjectsStart| < |EndLine(b)|
    ensures EndLine(b)[|EndLine(b)| - |ObjectsStart|..] != ObjectsStart
  {
    var y := EndLine(b);
    assert y[|y| - 3] == '/';
    assert y[|y| - |ObjectsStart|..][|ObjectsStart| - 3] == y[|y| - 3];
  }

  /** An end line never holds a begin marker. */
  lemma EndLineHoldsNoBeginMarker(n: string, m: string)
    requires IsName(n) && IsName(m)
    ensures !Contains(EndLine(n), BeginMarker(m))
  {
    var l := EndLine(n);
    forall j: nat | j <= |l| ensures !OccursAt(l, BeginMarker(m), j) {
      if OccursAt(l, BeginMarker(m), j) {
        OccurrenceChar(l, BeginMarker(m), j, 0);
        OccurrenceChar(l, BeginMarker(m), j, 1);
        OccurrenceChar(l, BeginMarker(m), j, 3);
        if 7 <= j < 7 + |n| {
          NameChar(n, j - 7);
        }
      }
    }
  }

  /** Inside an anchor followed by an empty section, the only place strictly
      before the end that follows a blank line is the end of the anchor. */
  lemma BlankLineInsideAnchored(a: string, name: string, j: nat)
    requires LineThenBlank(a) && IsName(name)
    requires 0 < j < |a + EmptySection(name)|
    requires (a + EmptySection(name))[j - 1] == '\n'
    requires j >= 2 ==> (a + EmptySection(name))[j - 2] == '\n'
    ensures j == |a|
  {
    LineBreaksAfterAnchor(a, name);
  }

  /** A line followed by a blank line that ends strictly inside an anchor
      followed by an empty section ends where the anchor ends. */
  lemma CutAfterAnchorLine(s: string, anchor: string, name: string, p: nat, a: string, i: nat)
    requires LineThenBlank(anchor) && IsName(name) && LineThenBlank(a)
    requires OccursAt(s, anchor + EmptySection(name), p) && OccursAt(s, a, i)
    requires p < i + |a| < p + |anchor + EmptySection(name)|
    ensures i + |a| == p + |anchor|
  {
    var w := anchor + EmptySection(name);
    var j := i + |a| - p;
    BlankLineAtEnd(s, a, i);
    OccurrenceChar(s, w, p, j - 1);
    if j >= 2 {
      OccurrenceChar(s, w, p, j - 2);
    }
    BlankLineInsideAnchored(anchor, name, j);
  }
}
