/** `project-doc-site`: replacing several ranges of one text, last range first. */
module MarkdownSplice {
  import opened Sorting
  import opened Packages

  datatype Replacement = Replacement(start: nat, end: nat, value: string)

  /** The ranges lie in the text, and no two of them overlap or start at the same place. */
  ghost predicate Disjoint(rs: seq<Replacement>, size: nat) {
    && (forall i :: 0 <= i < |rs| ==> rs[i].start <= rs[i].end <= size)
    && (forall i, j :: 0 <= i < |rs| && 0 <= j < |rs| && i != j ==> Apart(rs[i], rs[j]))
  }

  predicate Apart(a: Replacement, b: Replacement) {
    a.start != b.start && (a.end <= b.start || b.end <= a.start)
  }

  function Later(a: Replacement, b: Replacement): int { b.start - a.start }

  /** String.prototype.slice with two in-order offsets: offsets past the end are clamped. */
  function Slice(s: string, from: nat, to: nat): string {
    var stop := if to <= |s| then to else |s|;
    if from <= stop then s[from..stop] else ""
  }

  function Splice(source: string, r: Replacement): string {
    Slice(source, 0, r.start) + r.value + Slice(source, r.end, |source|)
  }

  function SpliceAll(source: string, rs: seq<Replacement>): string {
    if rs == [] then source else Splice(SpliceAll(source, rs[..|rs| - 1]), rs[|rs| - 1])
  }

  /** The loop of `rewriteMarkdown` over the collected replacements. */
  method Project(source: string, replacements: seq<Replacement>) returns (projected: string)
    ensures projected == SpliceAll(source, Sort(replacements, Later))
    ensures Disjoint(replacements, |source|) ==> Substituted(source, replacements, projected)
  {
    hide Sort, SpliceAll, Disjoint, Substituted;
    projected := source;
    var sorted := Sort(replacements, Later);
    SpliceNothing(source);
    for i := 0 to |sorted|
      invariant projected == SpliceAll(source, sorted[..i])
    {
      var r := sorted[i];
      SpliceNext(source, sorted, i);
      projected := Slice(projected, 0, r.start) + r.value + Slice(projected, r.end, |projected|);
    }
    assert sorted[..|sorted|] == sorted;
    if Disjoint(replacements, |source|) { SpliceIsSubstitution(source, replacements); }
  }

  lemma SpliceNothing(source: string)
    ensures SpliceAll(source, []) == source
  {
  }

  lemma SpliceNext(source: string, rs: seq<Replacement>, i: nat)
    requires i < |rs|
    ensures SpliceAll(source, rs[..i + 1]) == Splice(SpliceAll(source, rs[..i]), rs[i])
  {
    assert rs[..i + 1][..i] == rs[..i];
  }

  // ----- simultaneous substitution -----

  /** How far the text at p moves: the growth of all ranges that start before p. */
  ghost function Shift(rs: seq<Replacement>, p: int): int {
    if rs == [] then 0
    else Shift(rs[..|rs| - 1], p) + Growth(rs[|rs| - 1], p)
  }

  ghost function Growth(r: Replacement, p: int): int {
    if r.start < p then |r.value| - (r.end - r.start) else 0
  }

  ghost predicate Untouched(rs: seq<Replacement>, p: nat) {
    forall r :: r in rs ==> p < r.start || r.end <= p
  }

  /** The character at p is found where the ranges before it have moved it. */
  ghost predicate KeepsText(source: string, rs: seq<Replacement>, result: string, p: nat)
    requires p < |source|
  {
    0 <= p + Shift(rs, p + 1) < |result| && result[p + Shift(rs, p + 1)] == source[p]
  }

  /** The value of r stands where its range was. */
  ghost predicate PlacesValue(rs: seq<Replacement>, result: string, r: Replacement) {
    && 0 <= r.start + Shift(rs, r.start) <= |result| - |r.value|
    && result[r.start + Shift(rs, r.start)..r.start + Shift(rs, r.start) + |r.value|] == r.value
  }

  /** `result` is `source` with all ranges replaced at once: every character outside them is kept, each
      value stands where its range was, everything is moved by the growth before it, and nothing is
      added. */
  ghost predicate Substituted(source: string, rs: seq<Replacement>, result: string) {
    && |result| == |source| + Shift(rs, |source| + 1)
    && (forall p: nat :: p < |source| && Untouched(rs, p) ==> KeepsText(source, rs, result, p))
    && (forall r :: r in rs ==> PlacesValue(rs, result, r))
  }

  // ----- the proof: one more range to the left -----

  /** The ranges come in descending order. */
  ghost predicate Descending(rs: seq<Replacement>, size: nat) {
    && (forall i :: 0 <= i < |rs| ==> rs[i].start <= rs[i].end <= size)
    && (forall i, j :: 0 <= i < j < |rs| ==> rs[j].end <= rs[i].start && rs[j].start < rs[i].start)
  }

  /** Nothing moves before the ranges. */
  lemma {:induction false} NoShift(rs: seq<Replacement>, p: int)
    requires forall r :: r in rs ==> p <= r.start
    ensures Shift(rs, p) == 0
  {
    if rs != [] { NoShift(rs[..|rs| - 1], p); }
  }

  lemma DescendingInit(rs: seq<Replacement>, size: nat)
    requires Descending(rs, size) && rs != []
    ensures Before(rs[..|rs| - 1], rs[|rs| - 1], size)
    ensures forall r :: r in rs[..|rs| - 1] ==> r in rs
  {
    var n := |rs| - 1;
    forall q | q in rs[..n] ensures rs[n].end <= q.start && rs[n].start < q.start {
      var i :| 0 <= i < n && rs[i] == q;
    }
  }

  /** Whatever comes after the position m, where no range has begun, stays after it: ranges to the left
      of p cannot shrink by more than their length. */
  lemma {:induction false} ShiftBounded(rs: seq<Replacement>, size: nat, m: nat, p: nat, q: nat)
    requires Descending(rs, size) && m <= p <= q
    requires forall r :: r in rs ==> m <= r.start && (r.start >= q || r.end <= p)
    ensures p + Shift(rs, q) >= m
  {
    if rs != [] {
      var n := |rs| - 1;
      var l := rs[n];
      assert l in rs;
      DescendingInit(rs, size);
      hide Descending;
      if l.start < q {
        ShiftBounded(rs[..n], size, l.end, p, q);
      } else {
        NoShift(rs[..n], q);
      }
    }
  }

  lemma ShiftAppend(rs: seq<Replacement>, r: Replacement, p: int)
    ensures Shift(rs + [r], p) == Shift(rs, p) + Growth(r, p)
  {
    assert (rs + [r])[..|rs|] == rs;
  }

  ghost predicate Before(rs: seq<Replacement>, r: Replacement, size: nat) {
    Descending(rs, size) && r.start <= r.end <= size && forall q :: q in rs ==> r.end <= q.start && r.start < q.start
  }

  lemma SpliceParts(s: string, r: Replacement)
    requires r.start <= r.end <= |s|
    ensures var g, t := |r.value| - (r.end - r.start), Splice(s, r);
            && |t| == |s| + g
            && (forall k :: 0 <= k < r.start ==> t[k] == s[k])
            && t[r.start..r.start + |r.value|] == r.value
            && (forall k :: r.end <= k < |s| ==> t[k + g] == s[k])
  {
    assert Splice(s, r) == s[..r.start] + r.value + s[r.end..];
  }

  lemma TextKept(source: string, rs: seq<Replacement>, r: Replacement, middle: string, p: nat)
    requires Before(rs, r, |source|) && p < |source| && Untouched(rs + [r], p)
    requires KeepsText(source, rs, middle, p) && r.end <= |middle| &&
             forall k :: 0 <= k < r.end ==> middle[k] == source[k]
    ensures KeepsText(source, rs + [r], Splice(middle, r), p)
  {
    hide Splice, Descending, Shift;
    ShiftAppend(rs, r, p + 1);
    if p < r.start {
      NoShift(rs, p + 1);
    } else {
      forall q | q in rs ensures q.start >= p + 1 || q.end <= p { assert q in rs + [r]; }
      ShiftBounded(rs, |source|, r.end, p, p + 1);
    }
    assert r in rs + [r];
    CharMoves(middle, r, p + Shift(rs, p + 1));
  }

  lemma CharMoves(s: string, r: Replacement, i: nat)
    requires r.start <= r.end <= |s| && i < |s| && (i < r.start || r.end <= i)
    ensures var t, j := Splice(s, r), if i < r.start then i else i + |r.value| - (r.end - r.start);
            0 <= j < |t| && t[j] == s[i]
  {
    SpliceParts(s, r);
    hide Splice;
  }

  lemma ValueKept(source: string, rs: seq<Replacement>, r: Replacement, middle: string, q: Replacement)
    requires Before(rs, r, |source|) && q in rs && PlacesValue(rs, middle, q) && r.end <= |middle|
    ensures PlacesValue(rs + [r], Splice(middle, r), q)
  {
    hide Shift, Splice, Descending;
    ShiftAppend(rs, r, q.start);
    DescendingApart(rs, |source|, q);
    ShiftBounded(rs, |source|, r.end, q.start, q.start);
    ValueMoves(middle, r, q.start + Shift(rs, q.start), q.value);
  }

  lemma ValueMoves(middle: string, r: Replacement, at: int, value: string)
    requires r.start <= r.end <= at <= |middle| - |value|
    ensures var moved := at + |r.value| - (r.end - r.start);
            && 0 <= moved <= |Splice(middle, r)| - |value|
            && Splice(middle, r)[moved..moved + |value|] == middle[at..at + |value|]
  {
    SpliceParts(middle, r);
    SameSlice(Splice(middle, r), at + |r.value| - (r.end - r.start), middle, at, |value|);
  }

  lemma SameSlice(s: string, i: nat, t: string, j: nat, n: nat)
    requires i + n <= |s| && j + n <= |t| && forall k :: j <= k < j + n ==> s[k + (i - j)] == t[k]
    ensures s[i..i + n] == t[j..j + n]
  {
    var a, b := s[i..i + n], t[j..j + n];
    forall k | 0 <= k < n ensures a[k] == b[k] { assert s[j + k + (i - j)] == t[j + k]; }
  }

  lemma DescendingApart(rs: seq<Replacement>, size: nat, q: Replacement)
    requires Descending(rs, size) && q in rs
    ensures q.start <= q.end <= size && forall s :: s in rs ==> s.start >= q.start || s.end <= q.start
  {
    var i :| 0 <= i < |rs| && rs[i] == q;
    forall s | s in rs ensures s.start >= q.start || s.end <= q.start { var j :| 0 <= j < |rs| && rs[j] == s; }
  }

  lemma ValuePlaced(source: string, rs: seq<Replacement>, r: Replacement, middle: string)
    requires Before(rs, r, |source|) && r.end <= |middle|
    ensures PlacesValue(rs + [r], Splice(middle, r), r)
  {
    ShiftAppend(rs, r, r.start);
    NoShift(rs, r.start);
    SpliceParts(middle, r);
  }

  /** Splicing a range that lies before all others substitutes it too. */
  lemma SpliceBefore(source: string, rs: seq<Replacement>, r: Replacement, middle: string)
    requires Before(rs, r, |source|) && Substituted(source, rs, middle)
    requires r.end <= |middle| && forall k :: 0 <= k < r.end ==> middle[k] == source[k]
    ensures Substituted(source, rs + [r], Splice(middle, r))
    ensures r.start <= |Splice(middle, r)| && forall k :: 0 <= k < r.start ==> Splice(middle, r)[k] == source[k]
  {
    var all, result := rs + [r], Splice(middle, r);
    SpliceParts(middle, r);
    ShiftAppend(rs, r, |source| + 1);
    hide KeepsText, PlacesValue, Splice, Descending;
    forall p: nat | p < |source| && Untouched(all, p) ensures KeepsText(source, all, result, p) {
      assert Untouched(rs, p) by { assert forall q :: q in rs ==> q in all; }
      TextKept(source, rs, r, middle, p);
    }
    forall q | q in all ensures PlacesValue(all, result, q) {
      if q in rs {
        ValueKept(source, rs, r, middle, q);
      } else {
        ValuePlaced(source, rs, r, middle);
      }
    }
    hide Untouched, Before, Shift, Growth;
  }

  lemma {:induction false} DescendingSubstitutes(source: string, rs: seq<Replacement>, limit: nat)
    requires Descending(rs, |source|) && limit <= |source| && forall r :: r in rs ==> limit <= r.start
    ensures Substituted(source, rs, SpliceAll(source, rs))
    ensures limit <= |SpliceAll(source, rs)| && forall k :: 0 <= k < limit ==> SpliceAll(source, rs)[k] == source[k]
    decreases |rs|
  {
    if rs == [] {
      NothingReplaced(source);
    } else {
      var n := |rs| - 1;
      var r := rs[n];
      assert r in rs;
      DescendingInit(rs, |source|);
      hide Descending, Substituted, Splice;
      assert rs == rs[..n] + [r];
      assert forall q :: q in rs[..n] ==> r.end <= q.start;
      DescendingSubstitutes(source, rs[..n], r.end);
      SpliceBefore(source, rs[..n], r, SpliceAll(source, rs[..n]));
    }
  }

  lemma NothingReplaced(source: string)
    ensures Substituted(source, [], source)
  {
  }

  // ----- any order of the replacements -----

  lemma LaterTotal(rs: seq<Replacement>)
    ensures Total(Later)
  {
    forall a, b ensures Signs(Later, a, b) {}
    forall a, b, c ensures Chains(Later, a, b, c) {}
  }

  lemma {:induction false} ShiftPermutes(rs: seq<Replacement>, ss: seq<Replacement>, p: int)
    requires multiset(rs) == multiset(ss)
    ensures Shift(rs, p) == Shift(ss, p)
    decreases |rs|
  {
    SameElements(rs, ss);
    if rs != [] {
      var i := TakeLast(rs, ss);
      ShiftPermutes(rs[..|rs| - 1], ss[..i] + ss[i + 1..], p);
      ShiftTakes(ss, i, p);
    }
  }

  lemma {:induction false} ShiftTakes(ss: seq<Replacement>, i: nat, p: int)
    requires i < |ss|
    ensures Shift(ss, p) == Shift(ss[..i] + ss[i + 1..], p) + Growth(ss[i], p)
    decreases |ss|
  {
    var n := |ss| - 1;
    var us := ss[..i] + ss[i + 1..];
    if i == n {
      assert us == ss[..n];
    } else {
      assert us[..n - 1] == ss[..n][..i] + ss[..n][i + 1..] && us[n - 1] == ss[n];
      ShiftTakes(ss[..n], i, p);
    }
  }

  /** Disjoint ranges have no common start, so the sort leaves them strictly descending. */
  lemma SortDescends(rs: seq<Replacement>, size: nat)
    requires Disjoint(rs, size)
    ensures Descending(Sort(rs, Later), size)
  {
    hide Sort, Sorted, Total;
    var sorted := Sort(rs, Later);
    LaterTotal(rs);
    SortSorts(rs, Later);
    SortedBounds(rs, sorted, size);
    SortedLater(sorted);
    forall i, j | 0 <= i < j < |sorted| ensures sorted[j].end <= sorted[i].start && sorted[j].start < sorted[i].start {
      SortedApart(rs, sorted, i, j, size);
    }
  }

  lemma SortedBounds(rs: seq<Replacement>, sorted: seq<Replacement>, size: nat)
    requires Disjoint(rs, size) && multiset(rs) == multiset(sorted)
    ensures forall i :: 0 <= i < |sorted| ==> sorted[i].start <= sorted[i].end <= size
  {
    SameElements(rs, sorted);
    forall i | 0 <= i < |sorted| ensures sorted[i].start <= sorted[i].end <= size {
      assert sorted[i] in rs;
    }
  }

  lemma SortedLater(sorted: seq<Replacement>)
    requires Sorted(sorted, Later)
    ensures forall i, j :: 0 <= i < j < |sorted| ==> sorted[j].start <= sorted[i].start
  {
    forall i, j | 0 <= i < j < |sorted| ensures sorted[j].start <= sorted[i].start {
      assert Later(sorted[i], sorted[j]) <= 0;
    }
  }

  lemma SortedApart(rs: seq<Replacement>, sorted: seq<Replacement>, i: nat, j: nat, size: nat)
    requires Disjoint(rs, size) && multiset(rs) == multiset(sorted) && i < j < |sorted|
    ensures Apart(sorted[i], sorted[j])
  {
    SameElements(rs, sorted);
    assert Distinct(rs) by { assert forall x: Replacement :: !Apart(x, x); }
    DistinctByCount(rs);
    DistinctByCount(sorted);
    var a, b := sorted[i], sorted[j];
    assert a in rs && b in rs;
    var k :| 0 <= k < |rs| && rs[k] == a;
    var l :| 0 <= l < |rs| && rs[l] == b;
    hide Distinct;
  }

  /** Splicing disjoint ranges last to first is substituting them all at once; the order in which the
      replacements were collected does not matter. */
  lemma SpliceIsSubstitution(source: string, rs: seq<Replacement>)
    requires Disjoint(rs, |source|)
    ensures Substituted(source, rs, SpliceAll(source, Sort(rs, Later)))
  {
    var sorted := Sort(rs, Later);
    SortDescends(rs, |source|);
    DescendingSubstitutes(source, sorted, 0);
    SubstitutedPermutes(source, sorted, rs, SpliceAll(source, sorted));
  }

  lemma SubstitutedPermutes(source: string, rs: seq<Replacement>, ss: seq<Replacement>, result: string)
    requires multiset(rs) == multiset(ss) && Substituted(source, rs, result)
    ensures Substituted(source, ss, result)
  {
    SameElements(rs, ss);
    forall p ensures Shift(ss, p) == Shift(rs, p) { ShiftPermutes(rs, ss, p); }
    hide Shift;
    forall p: nat | p < |source| && Untouched(ss, p) ensures KeepsText(source, ss, result, p) {
      assert Untouched(rs, p);
      assert KeepsText(source, rs, result, p);
    }
    forall r | r in ss ensures PlacesValue(ss, result, r) { assert PlacesValue(rs, result, r); }
  }

  lemma CollectionOrderIrrelevant(source: string, rs: seq<Replacement>, ss: seq<Replacement>)
    requires Disjoint(rs, |source|) && multiset(rs) == multiset(ss)
    ensures SpliceAll(source, Sort(rs, Later)) == SpliceAll(source, Sort(ss, Later))
  {
    LaterTotal(rs);
    forall a, b | a in rs && b in rs && Later(a, b) == 0 ensures a == b {
      var i :| 0 <= i < |rs| && rs[i] == a;
      var j :| 0 <= j < |rs| && rs[j] == b;
      assert i != j ==> Apart(rs[i], rs[j]);
    }
    SortUnique(rs, ss, Later);
  }
}
