/** The JavaScript string operations the section completer relies on, over
    literal (non-regex) patterns: substring search, `String.prototype.split`,
    `Array.prototype.join`, and a count of occurrences that the completer's
    correctness conditions are phrased in. */
module Text {

  datatype Option<T> = None | Some(value: T)

  /** `p` occurs in `s` starting at index `k`. */
  predicate OccursAt(s: string, p: string, k: nat) {
    k + |p| <= |s| && s[k..k + |p|] == p
  }

  /** `p` occurs somewhere in `s`; this is what `RegExp.prototype.test`
      answers for a pattern that matches exactly one literal string. */
  predicate Contains(s: string, p: string) {
    exists k: nat | k <= |s| :: OccursAt(s, p, k)
  }

  /** The index of the first occurrence of `p` in `s` at or after `k`, the
      search `split` performs to find its next cut. */
  function FindFrom(s: string, p: string, k: nat): (r: Option<nat>)
    ensures r.Some? ==> k <= r.value && OccursAt(s, p, r.value)
    ensures r.Some? ==> forall j: nat :: k <= j < r.value ==> !OccursAt(s, p, j)
    ensures r.None? ==> forall j: nat :: k <= j ==> !OccursAt(s, p, j)
    decreases |s| + 1 - k
  {
    if |s| < k + |p| then None
    else if OccursAt(s, p, k) then Some(k)
    else FindFrom(s, p, k + 1)
  }

  /** `Array.prototype.join`: the parts with `sep` between neighbours. */
  function Join(parts: seq<string>, sep: string): string
  {
    if |parts| == 0 then ""
    else if |parts| == 1 then parts[0]
    else parts[0] + sep + Join(parts[1..], sep)
  }

  /** `split` with the empty separator: one part per character. */
  function Chars(s: string): (parts: seq<string>)
    ensures |parts| == |s|
    ensures forall i :: 0 <= i < |s| ==> parts[i] == [s[i]]
    ensures Join(parts, "") == s
  {
    if |s| == 0 then []
    else
      var rest := Chars(s[1..]);
      var parts := [[s[0]]] + rest;
      assert parts[1..] == rest;
      assert s == [s[0]] + s[1..];
      assert forall i :: 0 < i < |s| ==> parts[i] == rest[i - 1];
      parts
  }

  /** `String.prototype.split` with a literal separator: joining the pieces
      with the separator gives the text back, and with a non-empty separator
      no piece holds it. */
  function Split(s: string, sep: string): (parts: seq<string>)
    ensures |sep| > 0 ==> |parts| > 0
    ensures Join(parts, sep) == s
    ensures |sep| > 0 ==> forall i :: 0 <= i < |parts| ==> !Contains(parts[i], sep)
  {
    if |sep| == 0 then Chars(s)
    else
      SplitOnJoin(s, sep);
      SplitPiecesFree(s, sep);
      SplitOn(s, sep)
  }

  /** `split` with a non-empty separator: `s` cut at every occurrence of
      `sep`, each search starting where the previous cut ended. */
  function SplitOn(s: string, sep: string): (parts: seq<string>)
    requires |sep| > 0
    ensures 0 < |parts| <= |s| + 1
    decreases |s|
  {
    match FindFrom(s, sep, 0)
    case None => [s]
    case Some(i) => [s[..i]] + SplitOn(s[i + |sep|..], sep)
  }

  /** Joining the pieces of a split with the same separator gives back the
      text. */
  lemma {:induction false} SplitOnJoin(s: string, sep: string)
    requires |sep| > 0
    ensures Join(SplitOn(s, sep), sep) == s
    decreases |s|
  {
    match FindFrom(s, sep, 0)
    case None =>
    case Some(i) =>
      var rest := SplitOn(s[i + |sep|..], sep);
      SplitOnJoin(s[i + |sep|..], sep);
      assert ([s[..i]] + rest)[1..] == rest;
      assert s == s[..i] + sep + s[i + |sep|..] by {
        assert s == s[..i] + s[i..i + |sep|] + s[i + |sep|..];
      }
  }

  /** No piece of a split holds the separator. */
  lemma {:induction false} SplitPiecesFree(s: string, sep: string)
    requires |sep| > 0
    ensures forall i :: 0 <= i < |SplitOn(s, sep)| ==> !Contains(SplitOn(s, sep)[i], sep)
    decreases |s|
  {
    match FindFrom(s, sep, 0)
    case None =>
    case Some(i) =>
      PrefixBeforeFirst(s, sep, i);
      SplitPiecesFree(s[i + |sep|..], sep);
  }

  lemma SplitAtFirst(s: string, sep: string, i: nat)
    requires |sep| > 0 && FindFrom(s, sep, 0) == Some(i)
    ensures Split(s, sep) == [s[..i]] + Split(s[i + |sep|..], sep)
  {
  }

  lemma SplitWithout(s: string, sep: string)
    requires |sep| > 0 && FindFrom(s, sep, 0) == None
    ensures Split(s, sep) == [s]
  {
  }

  /** Element `k` of an array as `join` renders it: an index past the end
      reads `undefined`, which `join` writes as the empty string. */
  function Part(parts: seq<string>, k: nat): string {
    if k < |parts| then parts[k] else ""
  }

  lemma OccursInPrefix(s: string, n: nat, p: string, j: nat)
    requires n <= |s|
    ensures OccursAt(s[..n], p, j) <==> j + |p| <= n && OccursAt(s, p, j)
  {
    if j + |p| <= n {
      assert s[..n][j..j + |p|] == s[j..j + |p|];
    }
  }

  lemma OccursInSuffix(s: string, m: nat, p: string, j: nat)
    requires m <= |s|
    ensures OccursAt(s[m..], p, j) <==> OccursAt(s, p, m + j)
  {
    if m + j + |p| <= |s| {
      assert s[m..][j..j + |p|] == s[m + j..m + j + |p|];
    }
  }

  /** The character at offset `i` of an occurrence of `p` in `s`. */
  lemma OccurrenceChar(s: string, p: string, k: nat, i: nat)
    requires OccursAt(s, p, k) && i < |p|
    ensures s[k + i] == p[i]
  {
    assert s[k..k + |p|][i] == s[k + i];
  }

  /** An occurrence inside an occurrence is an occurrence. */
  lemma OccursWithin(s: string, x: string, k: nat, y: string, j: nat)
    requires OccursAt(s, x, k) && OccursAt(x, y, j)
    ensures OccursAt(s, y, k + j)
  {
    forall t | 0 <= t < |y| ensures s[k + j + t] == y[t] {
      OccurrenceChar(x, y, j, t);
      OccurrenceChar(s, x, k, j + t);
    }
    assert s[k + j..k + j + |y|] == y;
  }

  /** An occurrence in `y` is one in `x + y`, shifted by `|x|`. */
  lemma OccursAfter(x: string, y: string, p: string, j: nat)
    ensures OccursAt(y, p, j) <==> OccursAt(x + y, p, |x| + j)
  {
    assert (x + y)[|x|..] == y;
    OccursInSuffix(x + y, |x|, p, j);
  }

  /** The first occurrence at or after `m` is, in the text from `m` on, the
      first occurrence there. */
  lemma FindInSuffix(s: string, p: string, m: nat, j: nat)
    requires m <= |s| && FindFrom(s, p, m) == Some(j)
    ensures FindFrom(s[m..], p, 0) == Some(j - m)
  {
    forall t: nat | t < j - m ensures !OccursAt(s[m..], p, t) {
      OccursInSuffix(s, m, p, t);
    }
    OccursInSuffix(s, m, p, j - m);
    match FindFrom(s[m..], p, 0)
    case Some(q) =>
      OccursInSuffix(s, m, p, q);
    case None =>
  }

  lemma PrefixBeforeFirst(s: string, p: string, i: nat)
    requires |p| > 0 && i <= |s|
    requires forall j: nat :: j < i ==> !OccursAt(s, p, j)
    ensures !Contains(s[..i], p)
  {
    forall j: nat ensures !OccursAt(s[..i], p, j) {
      OccursInPrefix(s, i, p, j);
    }
  }

  /** A joined text is at least as long as its first two parts and the
      separator between them. */
  lemma JoinedLength(parts: seq<string>, sep: string)
    requires |parts| >= 2
    ensures |Join(parts, sep)| >= |parts[0]| + |sep| + |parts[1]|
  {
    var rest := parts[1..];
    if |rest| >= 2 {
      JoinedLength(rest, sep);
    }
  }

  /** Number of (possibly overlapping) occurrences of `p` in `s` starting at
      or after index `k`. */
  function CountFrom(s: string, p: string, k: nat): (n: nat)
    ensures n > 0 <==> exists j: nat :: k <= j && OccursAt(s, p, j)
    decreases |s| + 1 - k
  {
    if |s| < k + |p| then 0
    else (if OccursAt(s, p, k) then 1 else 0) + CountFrom(s, p, k + 1)
  }

  /** Number of occurrences of `p` in `s`. */
  function Count(s: string, p: string): (n: nat)
    ensures n > 0 <==> Contains(s, p)
  {
    CountFrom(s, p, 0)
  }

  lemma {:induction false} CountFromMonotone(s: string, p: string, k: nat, m: nat)
    requires k <= m
    ensures CountFrom(s, p, k) >= CountFrom(s, p, m)
    decreases m - k
  {
    if k < m {
      CountFromMonotone(s, p, k + 1, m);
    }
  }

  /** Two different occurrences make the count at least two. */
  lemma CountAtLeastTwo(s: string, p: string, i: nat, j: nat)
    requires i < j && OccursAt(s, p, i) && OccursAt(s, p, j)
    ensures Count(s, p) >= 2
  {
    CountFromMonotone(s, p, 0, i);
    CountFromMonotone(s, p, i + 1, j);
    assert CountFrom(s, p, i) == 1 + CountFrom(s, p, i + 1);
  }

  /** A count of one pins down the only occurrence. */
  lemma OnlyOccurrence(s: string, p: string, i: nat)
    requires Count(s, p) == 1 && OccursAt(s, p, i)
    ensures forall j: nat :: OccursAt(s, p, j) ==> j == i
  {
    forall j: nat | OccursAt(s, p, j) ensures j == i {
      if j < i {
        CountAtLeastTwo(s, p, j, i);
      } else if i < j {
        CountAtLeastTwo(s, p, i, j);
      }
    }
  }

  lemma {:induction false} CountFromSingle(s: string, p: string, k: nat, i: nat)
    requires forall j: nat :: k <= j && OccursAt(s, p, j) ==> j == i
    ensures CountFrom(s, p, k) == if k <= i && OccursAt(s, p, i) then 1 else 0
    decreases |s| + 1 - k
  {
    if k + |p| <= |s| {
      CountFromSingle(s, p, k + 1, i);
    }
  }

  /** When every occurrence of `p` in `s` is at index `i`, the count is one
      or zero according to whether `p` occurs there. */
  lemma CountSingle(s: string, p: string, i: nat)
    requires forall j: nat :: OccursAt(s, p, j) ==> j == i
    ensures Count(s, p) == if OccursAt(s, p, i) then 1 else 0
  {
    CountFromSingle(s, p, 0, i);
  }

  /** No occurrence of `p` in `x + y` starts inside `x` and ends inside `y`. */
  predicate NoStraddle(x: string, y: string, p: string) {
    forall k: nat :: k < |x| < k + |p| ==> !OccursAt(x + y, p, k)
  }

  lemma {:induction false} CountShift(x: string, y: string, p: string, j: nat)
    ensures CountFrom(x + y, p, |x| + j) == CountFrom(y, p, j)
    decreases |y| + 1 - j
  {
    if j + |p| <= |y| {
      assert (x + y)[|x| + j..|x| + j + |p|] == y[j..j + |p|];
      CountShift(x, y, p, j + 1);
    }
  }

  lemma {:induction false} CountConcatFrom(x: string, y: string, p: string, k: nat)
    requires |p| > 0 && NoStraddle(x, y, p) && k <= |x|
    ensures CountFrom(x + y, p, k) == CountFrom(x, p, k) + CountFrom(y, p, 0)
    decreases |x| - k
  {
    if k == |x| {
      CountConcatEnd(x, y, p);
    } else {
      CountConcatFrom(x, y, p, k + 1);
      CountConcatStep(x, y, p, k);
    }
  }

  /** One step of `CountConcatFrom` at an index inside `x`. */
  lemma CountConcatStep(x: string, y: string, p: string, k: nat)
    requires NoStraddle(x, y, p) && k < |x|
    requires CountFrom(x + y, p, k + 1) == CountFrom(x, p, k + 1) + CountFrom(y, p, 0)
    ensures CountFrom(x + y, p, k) == CountFrom(x, p, k) + CountFrom(y, p, 0)
  {
    if k + |p| <= |x| {
      CountConcatInside(x, y, p, k);
    } else {
      CountConcatSeam(x, y, p, k);
    }
  }

  /** `CountConcatFrom` at the end of `x`: only the occurrences in `y`
      remain. */
  lemma CountConcatEnd(x: string, y: string, p: string)
    requires |p| > 0
    ensures CountFrom(x + y, p, |x|) == CountFrom(x, p, |x|) + CountFrom(y, p, 0)
  {
    assert CountFrom(x, p, |x|) == 0;
    CountShift(x, y, p, 0);
  }

  /** One step of `CountConcatFrom` at an index whose window lies in `x`. */
  lemma CountConcatInside(x: string, y: string, p: string, k: nat)
    requires k + |p| <= |x|
    requires CountFrom(x + y, p, k + 1) == CountFrom(x, p, k + 1) + CountFrom(y, p, 0)
    ensures CountFrom(x + y, p, k) == CountFrom(x, p, k) + CountFrom(y, p, 0)
  {
    assert (x + y)[k..k + |p|] == x[k..k + |p|];
  }

  /** One step of `CountConcatFrom` at an index whose window crosses the
      seam without an occurrence there. */
  lemma CountConcatSeam(x: string, y: string, p: string, k: nat)
    requires k < |x| < k + |p| && !OccursAt(x + y, p, k)
    requires CountFrom(x + y, p, k + 1) == CountFrom(x, p, k + 1) + CountFrom(y, p, 0)
    ensures CountFrom(x + y, p, k) == CountFrom(x, p, k) + CountFrom(y, p, 0)
  {
  }

  /** Occurrences add up over a concatenation when none straddles the seam. */
  lemma CountConcat(x: string, y: string, p: string)
    requires |p| > 0 && NoStraddle(x, y, p)
    ensures Count(x + y, p) == Count(x, p) + Count(y, p)
  {
    CountConcatFrom(x, y, p, 0);
  }

  /** Inserting `e` between `x` and `y` adds exactly the occurrences inside
      `e` when no occurrence straddles either seam. */
  lemma CountInserted(x: string, e: string, y: string, p: string)
    requires |p| > 0
    requires NoStraddle(x, e + y, p) && NoStraddle(e, y, p) && NoStraddle(x, y, p)
    ensures Count(x + e + y, p) == Count(x + y, p) + Count(e, p)
  {
    assert x + e + y == x + (e + y);
    CountConcat(x, e + y, p);
    CountConcat(e, y, p);
    CountConcat(x, y, p);
  }

  /** `s` ends with a line break. */
  predicate EndsWithLineBreak(s: string) {
    |s| > 0 && s[|s| - 1] == '\n'
  }

  /** `s` ends with a line break followed by an empty line. */
  predicate EndsWithBlankLine(s: string) {
    |s| >= 2 && s[|s| - 2] == '\n' && s[|s| - 1] == '\n'
  }

  /** `s` contains no line break. */
  predicate SingleLine(s: string) {
    forall i :: 0 <= i < |s| ==> s[i] != '\n'
  }

  /** A line of text followed by a blank line, and no other line break. */
  predicate LineThenBlank(s: string) {
    |s| > 2 && EndsWithBlankLine(s) && forall i :: 0 <= i < |s| - 2 ==> s[i] != '\n'
  }

  lemma NoStraddleAfterLineBreak(x: string, y: string, p: string)
    requires EndsWithLineBreak(x) && SingleLine(p)
    ensures NoStraddle(x, y, p)
  {
    forall k: nat | k < |x| < k + |p| ensures !OccursAt(x + y, p, k) {
      var w := x + y;
      if k + |p| <= |w| {
        assert w[k..k + |p|][|x| - 1 - k] == x[|x| - 1];
      }
    }
  }

  lemma NoStraddleAfterBlankLine(x: string, y: string, p: string)
    requires EndsWithBlankLine(x) && LineThenBlank(p)
    ensures NoStraddle(x, y, p)
  {
    forall k: nat | k < |x| < k + |p| ensures !OccursAt(x + y, p, k) {
      var w := x + y;
      if k + |p| <= |w| {
        if |x| - k >= 2 {
          assert w[k..k + |p|][|x| - 2 - k] == x[|x| - 2];
        } else {
          assert w[k..k + |p|][0] == x[|x| - 1];
        }
      }
    }
  }

  /** Text inserted between two pieces that each end with a blank line adds
      its own occurrences of a one-line pattern, or of a line followed by a
      blank line, to those of the pieces and creates none across the seams. */
  lemma CountAroundBlankLines(x: string, e: string, y: string, p: string)
    requires EndsWithBlankLine(x) && EndsWithBlankLine(e)
    requires (|p| > 0 && SingleLine(p)) || LineThenBlank(p)
    ensures Count(x + e + y, p) == Count(x + y, p) + Count(e, p)
  {
    if LineThenBlank(p) {
      NoStraddleAfterBlankLine(x, e + y, p);
      NoStraddleAfterBlankLine(e, y, p);
      NoStraddleAfterBlankLine(x, y, p);
    } else {
      NoStraddleAfterLineBreak(x, e + y, p);
      NoStraddleAfterLineBreak(e, y, p);
      NoStraddleAfterLineBreak(x, y, p);
    }
    CountInserted(x, e, y, p);
  }

  /** Of two occurrences ending at the same index, the shorter pattern is a
      tail of the longer. */
  lemma SameEndTail(s: string, x: string, i: nat, y: string, j: nat)
    requires OccursAt(s, x, i) && OccursAt(s, y, j)
    requires i + |x| == j + |y| && |x| <= |y|
    ensures y[|y| - |x|..] == x
  {
    assert s[j..j + |y|][|y| - |x|..] == s[i..i + |x|];
  }

  /** An occurrence of a concatenation is an occurrence of each half. */
  lemma OccursSplit(s: string, x: string, y: string, k: nat)
    requires OccursAt(s, x + y, k)
    ensures OccursAt(s, x, k) && OccursAt(s, y, k + |x|)
  {
    assert s[k..k + |x| + |y|][..|x|] == s[k..k + |x|];
    assert s[k..k + |x| + |y|][|x|..] == s[k + |x|..k + |x| + |y|];
  }

  /** Adjacent occurrences form an occurrence of the concatenation. */
  lemma OccursJoin(s: string, x: string, y: string, k: nat)
    requires OccursAt(s, x, k) && OccursAt(s, y, k + |x|)
    ensures OccursAt(s, x + y, k)
  {
    assert s[k..k + |x| + |y|] == s[k..k + |x|] + s[k + |x|..k + |x| + |y|];
  }

  /** Two stretches sharing a line that occurs only once overlap on it:
      together they form one stretch. */
  lemma ChainAtSharedLine(f: string, a: string, b: string, l: string, e: string)
    requires Contains(f, a + b + l) && Contains(f, l + e) && Count(f, l) == 1
    ensures Contains(f, a + b + l + e)
  {
    var p1: nat :| p1 <= |f| && OccursAt(f, a + b + l, p1);
    var p2: nat :| p2 <= |f| && OccursAt(f, l + e, p2);
    OccursSplit(f, a + b, l, p1);
    OccursSplit(f, l, e, p2);
    OnlyOccurrence(f, l, p2);
    OccursJoin(f, a + b + l, e, p1);
  }

  /** Inserting text at index `q` keeps an occurrence that lies wholly on
      one side of `q`, shifted by the inserted length when it lies after. */
  lemma OccursAcrossInsert(s: string, q: nat, e: string, w: string, p: nat)
    requires q <= |s| && OccursAt(s, w, p) && (q <= p || p + |w| <= q)
    ensures OccursAt(s[..q] + e + s[q..], w, if q <= p then p + |e| else p)
  {
    var r := s[..q] + e + s[q..];
    if q <= p {
      assert r[p + |e|..p + |e| + |w|] == s[p..p + |w|];
    } else {
      assert r[p..p + |w|] == s[p..p + |w|];
    }
  }

  /** An occurrence wholly on one side of the insertion point survives the
      insertion. */
  lemma ContainsAcrossInsert(s: string, q: nat, e: string, w: string, p: nat)
    requires q <= |s| && OccursAt(s, w, p) && (q <= p || p + |w| <= q)
    ensures Contains(s[..q] + e + s[q..], w)
  {
    OccursAcrossInsert(s, q, e, w, p);
    ContainsAt(s[..q] + e + s[q..], w, if q <= p then p + |e| else p);
  }

  /** Text inserted at a point that cuts no occurrence of `w` keeps `w`. */
  lemma ContainsAcrossCut(s: string, q: nat, e: string, w: string)
    requires q <= |s| && Contains(s, w)
    requires forall p: nat :: OccursAt(s, w, p) ==> q <= p || p + |w| <= q
    ensures Contains(s[..q] + e + s[q..], w)
  {
    var p: nat :| p <= |s| && OccursAt(s, w, p);
    ContainsAcrossInsert(s, q, e, w, p);
  }

  /** `idx` lists increasing positions of `b` that hold the characters of
      `a` in turn. */
  predicate Embedding(a: string, b: string, idx: seq<nat>) {
    |idx| == |a| &&
    (forall k :: 0 <= k < |idx| ==> idx[k] < |b| && b[idx[k]] == a[k]) &&
    (forall k :: 0 <= k < |idx| - 1 ==> idx[k] < idx[k + 1])
  }

  /** `b` is `a` with characters inserted: deleting some characters of `b`
      gives back `a`. */
  ghost predicate IsSubsequence(a: string, b: string) {
    exists idx: seq<nat> :: Embedding(a, b, idx)
  }

  /** Every text embeds in itself, position for position. */
  lemma EmbedSelf(a: string) returns (idx: seq<nat>)
    ensures Embedding(a, a, idx)
  {
    idx := seq(|a|, (k: int) => if k < 0 then 0 else k);
  }

  /** The positions of an embedding once `d` characters are inserted at `q`. */
  function Shift(idx: seq<nat>, q: nat, d: nat): (r: seq<nat>)
    ensures |r| == |idx|
    ensures forall k :: 0 <= k < |idx| ==> r[k] == if idx[k] < q then idx[k] else idx[k] + d
  {
    seq(|idx|, (k: int) requires 0 <= k < |idx| => if idx[k] < q then idx[k] else idx[k] + d)
  }

  /** Inserting text into `c` keeps every embedding into it, shifted past the
      insertion point. */
  lemma EmbeddingAcrossInsert(a: string, c: string, idx: seq<nat>, q: nat, e: string)
    requires Embedding(a, c, idx) && q <= |c|
    ensures Embedding(a, c[..q] + e + c[q..], Shift(idx, q, |e|))
  {
    var r := c[..q] + e + c[q..];
    var s := Shift(idx, q, |e|);
    forall k | 0 <= k < |s| ensures s[k] < |r| && r[s[k]] == a[k] {
      if idx[k] < q {
        assert r[idx[k]] == c[idx[k]];
      } else {
        assert r[idx[k] + |e|] == c[idx[k]];
      }
    }
  }

  /** The same, for a text known to be the insertion. */
  lemma EmbeddingIntoSplice(a: string, c: string, idx: seq<nat>, q: nat, e: string, r: string)
    requires Embedding(a, c, idx) && q <= |c| && r == c[..q] + e + c[q..]
    ensures Embedding(a, r, Shift(idx, q, |e|))
  {
    EmbeddingAcrossInsert(a, c, idx, q, e);
  }

  lemma SplitOnHead(s: string, sep: string, i: nat)
    requires |sep| > 0 && FindFrom(s, sep, 0) == Some(i)
    ensures |SplitOn(s, sep)| >= 2 && SplitOn(s, sep)[0] == s[..i]
    ensures SplitOn(s, sep)[1] == SplitOn(s[i + |sep|..], sep)[0]
  {
  }

  /** With two occurrences found, the first two pieces of a split are the
      text before the first and the text between the two. */
  lemma SplitFirstTwo(s: string, sep: string, i: nat, j: nat)
    requires |sep| > 0
    requires FindFrom(s, sep, 0) == Some(i)
    requires FindFrom(s, sep, i + |sep|) == Some(j)
    ensures i + |sep| <= j
    ensures Part(Split(s, sep), 0) == s[..i]
    ensures Part(Split(s, sep), 1) == s[i + |sep|..j]
  {
    var m := i + |sep|;
    OccursBounds(s, sep, i);
    var rest := s[m..];
    assert FindFrom(rest, sep, 0) == Some(j - m) by {
      FindInSuffix(s, sep, m, j);
    }
    assert SplitOn(s, sep)[1] == rest[..j - m] by {
      SplitOnHead(s, sep, i);
      SplitOnHead(rest, sep, j - m);
    }
    SplitOnHead(s, sep, i);
    SliceOfSuffix(s, m, j);
  }

  lemma OccursBounds(s: string, p: string, i: nat)
    requires OccursAt(s, p, i)
    ensures i + |p| <= |s|
  {
  }

  lemma SliceOfSuffix(s: string, m: nat, j: nat)
    requires m <= j <= |s|
    ensures s[m..][..j - m] == s[m..j]
  {
  }

  /** The text up to the end of an occurrence is the text before it followed
      by the pattern. */
  lemma PrefixThroughOccurrence(s: string, p: string, i: nat)
    requires OccursAt(s, p, i)
    ensures s[..i + |p|] == s[..i] + p
  {
    assert s[i..i + |p|] == p;
  }

  lemma ContainsAt(s: string, p: string, k: nat)
    requires OccursAt(s, p, k)
    ensures Contains(s, p)
  {
  }

  /** An occurrence of a line followed by a blank line ends with two line
      breaks. */
  lemma BlankLineAtEnd(s: string, p: string, i: nat)
    requires LineThenBlank(p) && OccursAt(s, p, i)
    ensures s[i + |p| - 1] == '\n' && s[i + |p| - 2] == '\n'
  {
    OccurrenceChar(s, p, i, |p| - 1);
    OccurrenceChar(s, p, i, |p| - 2);
  }
}
