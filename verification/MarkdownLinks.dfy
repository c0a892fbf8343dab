/** `project-doc-site`: collecting the destinations to replace from a node tree. Nodes nest, as an image
    in the label of a link does, but their destinations do not, as long as the labels are understood. */
module MarkdownLinks {
  import opened Basics
  import opened MarkdownDestination
  import opened MarkdownSplice
  import S = Sorting

  /** A parsed node with its source offsets; `kind` is None for nodes without a destination, and for
      autolinks, which are never relative and so never rewritten. */
  datatype Node = Node(kind: Option<Kind>, url: string, start: nat, end: nat, children: seq<Node>)

  /** The new URL for a node's URL, or None where it is left alone. */
  type Target = (string, Kind) -> Option<string>

  /** What the parser gives: offsets inside the source, children inside their parent and one after the
      other. */
  ghost predicate Parsed(source: string, n: Node) {
    n.start <= n.end <= |source| && Siblings(source, n.children, n.start, n.end)
  }

  ghost predicate Siblings(source: string, ns: seq<Node>, from: nat, to: nat) {
    && (forall i :: 0 <= i < |ns| ==> from <= ns[i].start <= ns[i].end <= to && Parsed(source, ns[i]))
    && (forall i, j :: 0 <= i < j < |ns| ==> ns[i].end <= ns[j].start)
  }

  predicate IsRewritten(n: Node, target: Target) {
    n.kind.Some? && target(n.url, n.kind.value).Some?
  }

  /** The nodes to rewrite below n, in the order in which they are visited. */
  function Rewritten(n: Node, target: Target): seq<Node> {
    (if IsRewritten(n, target) then [n] else []) + RewrittenAll(n.children, target)
  }

  function RewrittenAll(ns: seq<Node>, target: Target): seq<Node> {
    if ns == [] then [] else Rewritten(ns[0], target) + RewrittenAll(ns[1..], target)
  }

  /** The node's text up to the end of its label: an optional mark, and the label in brackets. */
  ghost predicate Labelled(raw: string, prefix: string, text: string) {
    && '[' !in prefix
    && |prefix| + |text| + 2 <= |raw| && raw[..|prefix| + |text| + 2] == prefix + "[" + text + "]"
  }

  /** The node has a label whose brackets balance, and its children stand in that label. */
  ghost predicate LabelClear(source: string, n: Node) {
    exists prefix, text :: ClearBy(source, n, prefix, text)
  }

  ghost predicate ClearBy(source: string, n: Node, prefix: string, text: string) {
    && n.start <= n.end <= |source| && Labelled(source[n.start..n.end], prefix, text) && Balanced(text, '[', ']')
    && forall i :: 0 <= i < |n.children| ==> n.children[i].end <= n.start + |prefix| + |text| + 1
  }

  /** Every rewritten node with rewritten nodes below it has a clear label. */
  ghost predicate LabelsClear(source: string, n: Node, target: Target) {
    && (forall i :: 0 <= i < |n.children| ==> LabelsClear(source, n.children[i], target))
    && (IsRewritten(n, target) && RewrittenAll(n.children, target) != [] ==> LabelClear(source, n))
  }

  /** The replacement stands at the destination that `destinationRange` finds in the node's own text. */
  ghost predicate AtDestination(source: string, n: Node, target: Target, r: Replacement) {
    && n.start <= n.end <= |source| && n.kind.Some? && target(n.url, n.kind.value) == Some(r.value)
    && n.start <= r.start && n.start <= r.end
    && Located(source[n.start..n.end], n.kind.value, Some(Range(r.start - n.start, r.end - n.start)))
  }

  ghost predicate AtDestinations(source: string, ns: seq<Node>, target: Target, rs: seq<Replacement>) {
    |ns| == |rs| && forall i :: 0 <= i < |ns| ==> AtDestination(source, ns[i], target, rs[i])
  }

  /** A node whose destination is not found. */
  ghost predicate Lost(source: string, n: Node) {
    n.start <= n.end <= |source| && n.kind.Some? && Located(source[n.start..n.end], n.kind.value, None)
  }

  // ----- the visit -----

  /** `visit`: a node first, then its children. None is the error of a destination that is not found. */
  method Visit(source: string, n: Node, target: Target) returns (rs: Option<seq<Replacement>>)
    requires Parsed(source, n)
    ensures rs.Some? ==> AtDestinations(source, Rewritten(n, target), target, rs.value)
    ensures rs.None? ==> exists k :: k in Rewritten(n, target) && Lost(source, k)
    decreases n
  {
    hide Located;
    var own := [];
    if n.kind.Some? && target(n.url, n.kind.value).Some? {
      var range := DestinationRange(source[n.start..n.end], n.kind.value);
      if range.None? {
        assert Lost(source, n) && n in Rewritten(n, target);
        return None;
      }
      own := [Replacement(n.start + range.value.start, n.start + range.value.end, target(n.url, n.kind.value).value)];
    }
    var rest := VisitAll(source, n.children, target, n.start, n.end);
    if rest.None? { return None; }
    rs := Some(own + rest.value);
  }

  method VisitAll(source: string, ns: seq<Node>, target: Target, ghost from: nat, ghost to: nat)
    returns (rs: Option<seq<Replacement>>)
    requires Siblings(source, ns, from, to)
    ensures rs.Some? ==> AtDestinations(source, RewrittenAll(ns, target), target, rs.value)
    ensures rs.None? ==> exists k :: k in RewrittenAll(ns, target) && Lost(source, k)
    decreases ns
  {
    hide Located, AtDestination, Parsed, Siblings, Rewritten, Lost;
    rs := Some([]);
    if ns != [] {
      FirstSibling(source, ns, from, to);
      var first := Visit(source, ns[0], target);
      if first.None? { return None; }
      var rest := VisitAll(source, ns[1..], target, ns[0].end, to);
      if rest.None? { return None; }
      rs := Some(first.value + rest.value);
    }
  }

  lemma FirstSibling(source: string, ns: seq<Node>, from: nat, to: nat)
    requires Siblings(source, ns, from, to) && ns != []
    ensures from <= ns[0].start <= ns[0].end <= to && Parsed(source, ns[0]) && Siblings(source, ns[1..], ns[0].end, to)
  {
    hide Parsed;
    assert forall i :: 0 <= i < |ns[1..]| ==> ns[1..][i] == ns[i + 1];
  }

  /** `rewriteMarkdown` on a parsed tree: the destinations of all nodes to rewrite are collected where
      they are found, and spliced. Where the labels are clear they are apart, and then they are all
      replaced at once and nothing else is changed. It fails only where a destination is not found. */
  method RewriteMarkdown(source: string, tree: Node, target: Target)
    returns (projected: Option<string>, ghost rs: seq<Replacement>)
    requires Parsed(source, tree)
    ensures projected.Some? ==>
              && AtDestinations(source, Rewritten(tree, target), target, rs)
              && projected.value == SpliceAll(source, S.Sort(rs, Later))
              && (LabelsClear(source, tree, target) ==> Disjoint(rs, |source|))
              && (Disjoint(rs, |source|) ==> Substituted(source, rs, projected.value))
    ensures projected.None? ==> exists n :: n in Rewritten(tree, target) && Lost(source, n)
  {
    hide Rewritten, AtDestinations, Lost, LabelsClear, Inside, S.Sort, SpliceAll;
    rs := [];
    var replacements := Visit(source, tree, target);
    if replacements.None? { return None, rs; }
    rs := replacements.value;
    if LabelsClear(source, tree, target) {
      DestinationsInside(source, tree, target, rs);
      InsideDisjoint(rs, tree.start, tree.end, |source|);
    }
    var text := Project(source, replacements.value);
    projected := Some(text);
  }

  // ----- which nodes are rewritten, and in which order -----

  /** k is n or a node somewhere below it. */
  ghost predicate Within(n: Node, k: Node)
    decreases n, 1
  {
    k == n || Below(n, k)
  }

  ghost predicate Below(n: Node, k: Node)
    decreases n, 0
  {
    exists i :: 0 <= i < |n.children| && Within(n.children[i], k)
  }

  /** b comes later in the source, or is nested in a. */
  ghost predicate NotAfter(a: Node, b: Node) {
    a.end <= b.start || Below(a, b)
  }

  ghost predicate InSourceOrder(ns: seq<Node>) {
    forall i, j :: 0 <= i < j < |ns| ==> NotAfter(ns[i], ns[j])
  }

  /** The nodes visited are all nodes of the tree with a new URL, in the order of the source, the outer
      before the inner. */
  lemma {:induction false} RewrittenExact(source: string, n: Node, target: Target)
    requires Parsed(source, n)
    ensures forall k :: k in Rewritten(n, target) <==> Within(n, k) && IsRewritten(k, target)
    ensures InSourceOrder(Rewritten(n, target))
    ensures forall k :: Within(n, k) ==> n.start <= k.start <= k.end <= n.end
    decreases n
  {
    hide RewrittenAll, IsRewritten, NotAfter;
    ChildrenExact(source, n.children, target, n.start, n.end);
    var below := RewrittenAll(n.children, target);
    forall k | k in below ensures NotAfter(n, k) { BelowNotAfter(n, k); }
    if IsRewritten(n, target) {
      OneInOrder(n);
      JoinedInOrder([n], below);
    } else {
      assert Rewritten(n, target) == below;
    }
  }

  lemma OneInOrder(n: Node)
    ensures InSourceOrder([n])
  {
  }

  lemma BelowNotAfter(n: Node, k: Node)
    requires WithinAny(n.children, k)
    ensures NotAfter(n, k)
  {
  }

  ghost predicate WithinAny(ns: seq<Node>, k: Node) {
    exists i :: 0 <= i < |ns| && Within(ns[i], k)
  }

  lemma {:induction false} ChildrenExact(source: string, ns: seq<Node>, target: Target, from: nat, to: nat)
    requires Siblings(source, ns, from, to)
    ensures forall k :: k in RewrittenAll(ns, target) <==> WithinAny(ns, k) && IsRewritten(k, target)
    ensures InSourceOrder(RewrittenAll(ns, target))
    ensures forall k :: WithinAny(ns, k) ==> from <= k.start <= k.end <= to
    decreases ns
  {
    hide Rewritten, IsRewritten, NotAfter, Within;
    if ns != [] {
      FirstSibling(source, ns, from, to);
      RewrittenExact(source, ns[0], target);
      ChildrenExact(source, ns[1..], target, ns[0].end, to);
      forall k ensures WithinAny(ns, k) <==> Within(ns[0], k) || WithinAny(ns[1..], k) { FirstOrRest(ns, k); }
      hide WithinAny, Siblings;
      var first, rest := Rewritten(ns[0], target), RewrittenAll(ns[1..], target);
      forall a, b | a in first && b in rest ensures NotAfter(a, b) { EarlierNotAfter(a, b); }
      JoinedInOrder(first, rest);
    }
  }

  lemma FirstOrRest(ns: seq<Node>, k: Node)
    requires ns != []
    ensures WithinAny(ns, k) <==> Within(ns[0], k) || WithinAny(ns[1..], k)
  {
    hide Within;
    assert forall i :: 0 <= i < |ns[1..]| ==> ns[1..][i] == ns[i + 1];
    if i :| 0 <= i < |ns| && Within(ns[i], k) {
      assert i > 0 ==> ns[1..][i - 1] == ns[i];
    }
  }

  lemma EarlierNotAfter(a: Node, b: Node)
    requires a.end <= b.start
    ensures NotAfter(a, b)
  {
  }

  lemma JoinedInOrder(a: seq<Node>, b: seq<Node>)
    requires InSourceOrder(a) && InSourceOrder(b) && forall x, y :: x in a && y in b ==> NotAfter(x, y)
    ensures InSourceOrder(a + b)
  {
    hide NotAfter;
    var all := a + b;
    forall i, j | 0 <= i < j < |all| ensures NotAfter(all[i], all[j]) {
      if i >= |a| { assert all[i] == b[i - |a|] && all[j] == b[j - |a|]; }
    }
  }

  // ----- destinations stand after their labels -----

  /** All ranges lie after `from`, up to `to`, and apart. */
  ghost predicate Inside(rs: seq<Replacement>, from: nat, to: nat) {
    && (forall i :: 0 <= i < |rs| ==> from < rs[i].start <= rs[i].end <= to)
    && (forall i, j :: 0 <= i < j < |rs| ==> Apart(rs[i], rs[j]))
  }

  lemma RangeAfterLabel(raw: string, kind: Kind, close: nat, r: Range)
    requires LabelEndsAt(raw, Some(close)) && Located(raw, kind, Some(r))
    ensures close < r.start <= r.end <= |raw|
  {
    hide LabelEndsAt, Located, EndsFrom, Start;
    LocatedAfter(raw, kind, close, Some(r));
    StartsLater(raw, kind, close);
    RangeFrom(raw, Start(raw, kind, close).value, r);
  }

  lemma StartsLater(raw: string, kind: Kind, close: nat)
    requires close < |raw|
    ensures Start(raw, kind, close).Some? ==> Start(raw, kind, close).value > close
  {
  }

  lemma RangeFrom(raw: string, start: nat, r: Range)
    requires start <= |raw| && EndsFrom(raw, start, Some(r))
    ensures start <= r.start <= r.end <= |raw|
  {
  }

  /** Whatever the label, the range lies in the node and after its first character. */
  lemma OwnRange(source: string, n: Node, target: Target, r: Replacement)
    requires AtDestination(source, n, target, r)
    ensures n.start < r.start <= r.end <= n.end
  {
    hide LabelEndsAt, Located;
    var raw, range := source[n.start..n.end], Range(r.start - n.start, r.end - n.start);
    var close := SomeLabelEnd(raw, n.kind.value, Some(range));
    RangeAfterLabel(raw, n.kind.value, close.value, range);
  }

  lemma LabelledEnds(raw: string, prefix: string, text: string)
    requires Labelled(raw, prefix, text) && Balanced(text, '[', ']')
    ensures LabelEndsAt(raw, Some(|prefix| + 1 + |text|))
  {
    hide LabelEndsAt, Balanced;
    var n := |prefix| + |text| + 2;
    LabelExact(prefix, text, raw[n..]);
    assert raw == raw[..n] + raw[n..];
  }

  lemma ClearRange(source: string, n: Node, target: Target, r: Replacement)
    requires n.start <= n.end <= |source| && LabelClear(source, n) && AtDestination(source, n, target, r)
    ensures forall i :: 0 <= i < |n.children| ==> n.children[i].end < r.start
  {
    hide Located, Labelled, Balanced, LabelEndsAt;
    var raw := source[n.start..n.end];
    var prefix, text :| ClearBy(source, n, prefix, text);
    LabelledEnds(raw, prefix, text);
    RangeAfterLabel(raw, n.kind.value, |prefix| + 1 + |text|, Range(r.start - n.start, r.end - n.start));
  }

  // ----- nested nodes have destinations apart -----

  /** Where nodes end. */
  ghost function LastEnd(ns: seq<Node>, from: nat): nat {
    if ns == [] then from else ns[|ns| - 1].end
  }

  lemma {:induction false} DestinationsInside(source: string, n: Node, target: Target, rs: seq<Replacement>)
    requires Parsed(source, n) && LabelsClear(source, n, target) &&
             AtDestinations(source, Rewritten(n, target), target, rs)
    ensures Inside(rs, n.start, n.end)
    decreases n
  {
    hide Inside, LabelClear, RewrittenAll, AtDestination;
    var below := RewrittenAll(n.children, target);
    if IsRewritten(n, target) {
      TakeFirst(source, n, below, target, rs);
      AllInside(source, n.children, target, rs[1..], n.start, n.end);
      OwnInside(source, n, target, rs[0], rs[1..]);
      assert rs == [rs[0]] + rs[1..];
    } else {
      assert Rewritten(n, target) == below;
      AllInside(source, n.children, target, rs, n.start, n.end);
      InsideWider(rs, n.start, LastEnd(n.children, n.start), n.end);
    }
  }

  lemma TakeFirst(source: string, n: Node, below: seq<Node>, target: Target, rs: seq<Replacement>)
    requires AtDestinations(source, [n] + below, target, rs)
    ensures rs != [] && AtDestination(source, n, target, rs[0]) && AtDestinations(source, below, target, rs[1..])
  {
    hide AtDestination;
    assert ([n] + below)[0] == n && forall i :: 0 <= i < |below| ==> ([n] + below)[i + 1] == below[i];
  }

  lemma OwnInside(source: string, n: Node, target: Target, own: Replacement, rs: seq<Replacement>)
    requires Parsed(source, n) && AtDestination(source, n, target, own) &&
             Inside(rs, n.start, LastEnd(n.children, n.start))
    requires rs != [] ==> LabelClear(source, n)
    requires n.start <= LastEnd(n.children, n.start)
    ensures Inside([own] + rs, n.start, n.end)
  {
    OwnRange(source, n, target, own);
    if rs == [] {
      assert [own] + rs == [own];
    } else {
      ClearRange(source, n, target, own);
      hide AtDestination, LabelClear;
      InsideFirst(own, rs, n.start, LastEnd(n.children, n.start), n.end);
    }
  }

  lemma {:induction false} AllInside(source: string, ns: seq<Node>, target: Target, rs: seq<Replacement>, from: nat,
                                     to: nat)
    requires Siblings(source, ns, from, to) && from <= to &&
             AtDestinations(source, RewrittenAll(ns, target), target, rs)
    requires forall i :: 0 <= i < |ns| ==> LabelsClear(source, ns[i], target)
    ensures Inside(rs, from, LastEnd(ns, from)) && from <= LastEnd(ns, from) <= to
    decreases ns
  {
    hide Inside, LabelsClear, Rewritten, AtDestination, Parsed;
    if ns == [] {
      NothingInside(from);
    } else {
      FirstSibling(source, ns, from, to);
      var k := |Rewritten(ns[0], target)|;
      SplitAt(source, Rewritten(ns[0], target), RewrittenAll(ns[1..], target), target, rs);
      DestinationsInside(source, ns[0], target, rs[..k]);
      AllInside(source, ns[1..], target, rs[k..], ns[0].end, to);
      InsideLower(rs[..k], ns[0].start, ns[0].end, from);
      InsideConcat(rs[..k], rs[k..], from, ns[0].end, LastEnd(ns[1..], ns[0].end));
      assert rs == rs[..k] + rs[k..] && LastEnd(ns[1..], ns[0].end) == LastEnd(ns, from);
    }
  }

  lemma SplitAt(source: string, a: seq<Node>, b: seq<Node>, target: Target, rs: seq<Replacement>)
    requires AtDestinations(source, a + b, target, rs)
    ensures |rs| == |a| + |b|
    ensures AtDestinations(source, a, target, rs[..|a|]) && AtDestinations(source, b, target, rs[|a|..])
  {
    hide AtDestination;
    assert forall i :: 0 <= i < |a| ==> (a + b)[i] == a[i];
    assert forall i :: 0 <= i < |b| ==> (a + b)[|a| + i] == b[i];
  }

  lemma NothingInside(from: nat)
    ensures Inside([], from, from)
  {
  }

  lemma InsideConcat(a: seq<Replacement>, b: seq<Replacement>, from: nat, middle: nat, to: nat)
    requires Inside(a, from, middle) && Inside(b, middle, to) && from <= middle <= to
    ensures Inside(a + b, from, to)
  {
    var all := a + b;
    forall i, j | 0 <= i < j < |all| ensures Apart(all[i], all[j]) {
      if i < |a| <= j { assert all[i] == a[i] && all[j] == b[j - |a|]; }
    }
  }

  lemma InsideFirst(own: Replacement, rs: seq<Replacement>, from: nat, middle: nat, to: nat)
    requires Inside(rs, from, middle) && from <= middle < own.start <= own.end <= to
    ensures Inside([own] + rs, from, to)
  {
    var all := [own] + rs;
    forall i, j | 0 <= i < j < |all| ensures Apart(all[i], all[j]) {
      assert all[j] == rs[j - 1];
      if i > 0 { assert all[i] == rs[i - 1]; }
    }
  }

  lemma InsideWider(rs: seq<Replacement>, from: nat, to: nat, more: nat)
    requires Inside(rs, from, to) && to <= more
    ensures Inside(rs, from, more)
  {
  }

  lemma InsideLower(rs: seq<Replacement>, from: nat, to: nat, less: nat)
    requires Inside(rs, from, to) && less <= from
    ensures Inside(rs, less, to)
  {
  }

  lemma InsideDisjoint(rs: seq<Replacement>, from: nat, to: nat, size: nat)
    requires Inside(rs, from, to) && to <= size
    ensures Disjoint(rs, size)
  {
    forall i, j | 0 <= i < |rs| && 0 <= j < |rs| && i != j ensures Apart(rs[i], rs[j]) {
      assert if i < j then Apart(rs[i], rs[j]) else Apart(rs[j], rs[i]);
    }
  }

  // ----- a label that is not clear -----

  /** A link whose label holds a bracket in a code span, and an image. */
  const MISREAD := "[`](`![](u)](d)"

  const IMAGE := Node(Some(Image), "u", 5, 11, [])
  const LINK := Node(Some(Link), "d", 0, 15, [IMAGE])

  /** The code span ends the label for the scan, so the destination found for the link is most of its own
      label, with the image in it, and the splice cuts all of that out. */
  lemma CodeSpanCutsLabel(target: Target, rs: seq<Replacement>)
    requires target("d", Link) == Some("w") && target("u", Image) == Some("v")
    requires AtDestinations(MISREAD, Rewritten(LINK, target), target, rs)
    ensures rs == [Replacement(4, 15, "w"), Replacement(9, 10, "v")]
    ensures Parsed(MISREAD, LINK) && !Disjoint(rs, 15) && SpliceAll(MISREAD, S.Sort(rs, Later)) == "[`](w"
  {
    hide Located, S.Sort;
    var s, a, b := MISREAD, Replacement(4, 15, "w"), Replacement(9, 10, "v");
    TreeRewritten(target);
    assert s[0..15] == s;
    LinkMisread(Some(Range(rs[0].start, rs[0].end)));
    ImageFound(Some(Range(rs[1].start - 5, rs[1].end - 5)));
    assert !Apart(rs[0], rs[1]);
    SortTwo(a, b);
    SpliceTwo(s, a, b);
  }

  lemma TreeRewritten(target: Target)
    requires target("d", Link) == Some("w") && target("u", Image) == Some("v")
    ensures Rewritten(LINK, target) == [LINK, IMAGE] && Parsed(MISREAD, LINK)
  {
    assert [IMAGE][1..] == [];
    assert Rewritten(IMAGE, target) == [IMAGE];
    assert RewrittenAll([IMAGE], target) == [IMAGE];
  }

  lemma SortTwo(a: Replacement, b: Replacement)
    requires a.start < b.start
    ensures S.Sort([a, b], Later) == [b, a]
  {
    assert [a, b][..1] == [a] && [a][..0] == [];
    assert S.Sort([a], Later) == [a];
    assert S.Insert([a], b, Later) == [b, a];
  }

  lemma SpliceTwo(s: string, a: Replacement, b: Replacement)
    requires s == MISREAD && a == Replacement(4, 15, "w") && b == Replacement(9, 10, "v")
    ensures SpliceAll(s, [b, a]) == "[`](w"
  {
    assert [b, a][..1] == [b] && [b][..0] == [];
    var t := "[`](`![](v)](d)";
    assert s[0..9] == "[`](`![](" && s[10..15] == ")](d)";
    assert SpliceAll(s, []) == s && Splice(s, b) == t;
    assert t[0..4] == "[`](" && Splice(t, a) == "[`](w";
  }

  lemma LinkMisread(r: Option<Range>)
    requires Located(MISREAD, Link, r)
    ensures r == Some(Range(4, 15))
  {
    hide LabelEndsAt, Located;
    LinkLabelEnds();
    LocatedAfter(MISREAD, Link, 2, r);
    assert Start(MISREAD, Link, 2) == Some(4);
    BareToEnd();
    hide BareEnds;
    forall end: nat | BareEnds(MISREAD[4..], end) ensures end == 11 { BareEndsUnique(MISREAD[4..], end, 11); }
  }

  lemma LinkLabelEnds()
    ensures LabelEndsAt(MISREAD, Some(2))
  {
    var s := MISREAD;
    assert s[0..] == s && IndexFrom(s, '[', 0) == Some(0);
    assert Depth(s, 1, '[', ']') == 1 && Depth(s, 2, '[', ']') == 1 && Depth(s, 3, '[', ']') == 0;
    assert forall j: nat :: j < 2 ==> !ClosesLabel(s, j);
  }

  lemma BareToEnd()
    ensures BareEnds(MISREAD[4..], 11)
  {
    var t := "`![](u)](d)";
    assert MISREAD[4..] == t;
    assert Depth(t, 4, '(', ')') == 0 && Depth(t, 6, '(', ')') == 1;
    assert Depth(t, 8, '(', ')') == 0 && Depth(t, 10, '(', ')') == 1;
    forall j: nat | j < 11 ensures !StopsBare(t, j) {
      assert t[j] == ')' ==> j == 6 || j == 10;
    }
  }

  lemma ImageFound(r: Option<Range>)
    requires Located(MISREAD[5..11], Image, r)
    ensures r == Some(Range(4, 5))
  {
    hide Located, LabelEndsAt;
    assert MISREAD[5..11] == "![](u)" == Head("!", "", Image, "") + "u" + ")";
    assert Depth("u", 1, '(', ')') == 0 && !Escaped("u", 1);
    assert Balanced("", '[', ']') && Bare("u");
    InlineDestinationExact("!", "", Image, "", "u", ")", r);
  }
}
