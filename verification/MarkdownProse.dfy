/** `markdown`: which lines of a Markdown text are prose, that is outside code blocks and with some
    text left once the HTML comments disappear. The parser's nodes are inputs. */
module MarkdownProse {
  import opened Basics
  import opened Sorting
  import opened Text

  /** Half-open. */
  datatype Span = Span(start: nat, end: nat)

  /** An html node: where its text begins, and the text. */
  datatype HtmlNode = HtmlNode(offset: nat, value: string)

  predicate Covers(s: Span, o: int) { s.start <= o < s.end }

  /** Some span covers the place o. */
  predicate Covered(spans: seq<Span>, o: int) {
    exists i :: 0 <= i < |spans| && Covers(spans[i], o)
  }

  // ----- lines -----

  /** The offset of line l: the lines before it, each with its line break. */
  function LineStart(lines: seq<string>, l: nat): nat
    requires l <= |lines|
  {
    if l == 0 then 0 else LineStart(lines, l - 1) + |lines[l - 1]| + 1
  }

  /** Line and column address the source: this is what makes offsets and columns comparable. */
  lemma {:induction false} LinesAddress(source: string, l: nat, column: nat)
    requires l < |Lines(source)| && column < |Lines(source)[l]|
    ensures LineStart(Lines(source), l) + column < |source|
    ensures source[LineStart(Lines(source), l) + column] == Lines(source)[l][column]
    decreases |source|
  {
    if source != "" {
      hide Lines;
      var n := |source| - 1;
      var shorter, lines := Lines(source[..n]), Lines(source);
      LinesGrow(source);
      LinesEnd(source[..n]);
      LineStartLast(shorter, lines);
      KeptLine(shorter, lines, l);
      if l < |shorter| && column < |shorter[l]| {
        LinesAddress(source[..n], l, column);
      }
    }
  }

  /** A line before the last one stays as it is. */
  lemma KeptLine(shorter: seq<string>, lines: seq<string>, l: nat)
    requires shorter != [] && |shorter| <= |lines| && lines[..|shorter| - 1] == shorter[..|shorter| - 1] && l < |lines|
    ensures l < |shorter| ==> LineStart(lines, l) == LineStart(shorter, l)
    ensures l < |shorter| - 1 ==> lines[l] == shorter[l]
  {
    var m := |shorter| - 1;
    if l <= m { LineStartPrefix(shorter, lines, l, m); }
    if l < m { assert lines[..m][l] == shorter[..m][l]; }
  }

  lemma {:induction false} LinesEnd(source: string)
    ensures var lines := Lines(source); LineStart(lines, |lines| - 1) + |lines[|lines| - 1]| == |source|
  {
    if source != "" {
      hide Lines;
      var n := |source| - 1;
      LinesEnd(source[..n]);
      LinesGrow(source);
      LineStartLast(Lines(source[..n]), Lines(source));
    }
  }

  /** The last line begins where it began, or one line break after its end. */
  lemma LineStartLast(init: seq<string>, lines: seq<string>)
    requires init != [] && |init| <= |lines| <= |init| + 1 && lines[..|init| - 1] == init[..|init| - 1]
    ensures var m := |init| - 1;
            LineStart(lines, m) == LineStart(init, m) &&
              (|lines| == m + 2 ==> LineStart(lines, m + 1) == LineStart(init, m) + |lines[m]| + 1)
  {
    LineStartPrefix(init, lines, |init| - 1, |init| - 1);
  }

  /** Where a line starts depends on the lines before it. */
  lemma {:induction false} LineStartPrefix(a: seq<string>, b: seq<string>, l: nat, m: nat)
    requires l <= m <= |b| && m <= |a| && a[..m] == b[..m]
    ensures LineStart(a, l) == LineStart(b, l)
  {
    if l > 0 {
      assert a[..m][l - 1] == b[..m][l - 1];
      LineStartPrefix(a, b, l - 1, m);
    }
  }

  // ----- the comments of the html nodes -----

  predicate Occurs(s: string, pattern: string, i: nat): (b: bool)
    ensures b <==> i + |pattern| <= |s| && forall k :: 0 <= k < |pattern| ==> s[i + k] == pattern[k]
  {
    i + |pattern| <= |s| && s[i..i + |pattern|] == pattern
  }

  /** String.prototype.indexOf. */
  function Find(s: string, pattern: string, from: nat): (r: Option<nat>)
    ensures r.Some? ==> from <= r.value && Occurs(s, pattern, r.value)
    ensures r.Some? ==> forall i :: from <= i < r.value ==> !Occurs(s, pattern, i)
    ensures r.None? ==> forall i :: from <= i ==> !Occurs(s, pattern, i)
    decreases |s| + 1 - from
  {
    if from > |s| then None else if Occurs(s, pattern, from) then Some(from) else Find(s, pattern, from + 1)
  }

  function CommentEnd(value: string, start: nat): (end: nat)
    requires Occurs(value, "<!--", start)
    ensures start < end <= |value|
  {
    var close := Find(value, "-->", start + 4);
    if close.None? then |value| else close.value + 3
  }

  function Comments(value: string, cursor: nat): seq<Span>
    requires cursor <= |value|
    decreases |value| - cursor
  {
    var start := Find(value, "<!--", cursor);
    if start.None? then []
    else
      var end := CommentEnd(value, start.value);
      [Span(start.value, end)] + Comments(value, end)
  }

  lemma CommentsStep(value: string, cursor: nat)
    requires cursor <= |value|
    ensures var start := Find(value, "<!--", cursor);
            if start.None? then Comments(value, cursor) == []
            else
              var end := CommentEnd(value, start.value);
              cursor <= start.value && Comments(value, cursor) == [Span(start.value, end)] + Comments(value, end)
  {
  }

  /** From an opening mark to the end of the first closing mark after it, or to the end of the text if
      there is none. */
  ghost predicate IsComment(value: string, c: Span) {
    && c.start < c.end <= |value| && Occurs(value, "<!--", c.start)
    && (|| (c.start + 4 <= c.end - 3 && Occurs(value, "-->", c.end - 3) && NoClose(value, c.start + 4, c.end - 3))
        || (c.end == |value| && NoClose(value, c.start + 4, |value|)))
  }

  ghost predicate NoClose(value: string, from: nat, to: nat) {
    forall i: nat :: from <= i < to ==> !Occurs(value, "-->", i)
  }

  lemma CommentEndExact(value: string, start: nat)
    requires Occurs(value, "<!--", start)
    ensures IsComment(value, Span(start, CommentEnd(value, start)))
  {
  }

  ghost predicate InOrder(cs: seq<Span>, cursor: nat) {
    && (forall i :: 0 <= i < |cs| ==> cursor <= cs[i].start <= cs[i].end)
    && (forall i, j :: 0 <= i < j < |cs| ==> cs[i].end <= cs[j].start)
  }

  /** In order, without overlap, and missing no opening mark. */
  ghost predicate AreComments(value: string, cs: seq<Span>, cursor: nat) {
    && (forall c :: c in cs ==> IsComment(value, c))
    && InOrder(cs, cursor)
    && (forall o: nat :: cursor <= o && Occurs(value, "<!--", o) ==> Covered(cs, o))
  }

  /** The comments found are exactly the text from each opening mark outside the comments before it to
      the next closing mark, or to the end: in order, without overlap, and missing no opening mark. */
  lemma {:induction false} CommentsExact(value: string, cursor: nat)
    requires cursor <= |value|
    ensures AreComments(value, Comments(value, cursor), cursor)
    decreases |value| - cursor
  {
    var start := Find(value, "<!--", cursor);
    CommentsStep(value, cursor);
    if start.Some? {
      var first := Span(start.value, CommentEnd(value, start.value));
      CommentEndExact(value, start.value);
      hide Occurs, CommentEnd, IsComment, Comments;
      CommentsExact(value, first.end);
      var rest := Comments(value, first.end);
      forall o: nat | cursor <= o && Occurs(value, "<!--", o) ensures Covered([first] + rest, o) {
        CoveredLast([first], rest, o);
        if o < first.end { assert Covers([first][0], o); }
      }
      hide Covered, Find;
      PutFirst(first, rest, cursor);
    }
  }

  lemma PutFirst(first: Span, rest: seq<Span>, cursor: nat)
    requires cursor <= first.start <= first.end && InOrder(rest, first.end)
    ensures InOrder([first] + rest, cursor)
  {
  }

  /** There is only one such list. */
  lemma {:induction false} CommentsUnique(value: string, cs: seq<Span>, ds: seq<Span>, cursor: nat)
    requires AreComments(value, cs, cursor) && AreComments(value, ds, cursor)
    ensures cs == ds
    decreases |cs|
  {
    hide Occurs;
    SomeComment(value, cs, ds, cursor);
    SomeComment(value, ds, cs, cursor);
    if cs != [] {
      FirstComment(value, cs, ds, cursor);
      FirstComment(value, ds, cs, cursor);
      assert cs[0] in cs && ds[0] in ds;
      OneEnd(value, cs[0], ds[0]);
      RestComments(value, cs, cursor);
      RestComments(value, ds, cursor);
      CommentsUnique(value, cs[1..], ds[1..], cs[0].end);
      assert cs == [cs[0]] + cs[1..] && ds == [ds[0]] + ds[1..];
    }
  }

  lemma SomeComment(value: string, cs: seq<Span>, ds: seq<Span>, cursor: nat)
    requires AreComments(value, cs, cursor) && AreComments(value, ds, cursor)
    ensures cs != [] ==> ds != []
  {
    hide Occurs;
    if cs != [] { assert cs[0] in cs && Covered(ds, cs[0].start); }
  }

  /** The first comment of the one list begins no later than that of the other. */
  lemma FirstComment(value: string, cs: seq<Span>, ds: seq<Span>, cursor: nat)
    requires AreComments(value, cs, cursor) && AreComments(value, ds, cursor) && cs != [] && ds != []
    ensures cs[0].start <= ds[0].start
  {
    hide Occurs;
    assert ds[0] in ds && Covered(cs, ds[0].start);
    var i :| 0 <= i < |cs| && Covers(cs[i], ds[0].start);
    if i > 0 { assert cs[0].end <= cs[i].start; }
  }

  lemma OneEnd(value: string, c: Span, d: Span)
    requires IsComment(value, c) && IsComment(value, d) && c.start == d.start
    ensures c == d
  {
    hide Occurs;
  }

  lemma RestComments(value: string, cs: seq<Span>, cursor: nat)
    requires AreComments(value, cs, cursor) && cs != []
    ensures AreComments(value, cs[1..], cs[0].end)
  {
    hide Occurs, IsComment;
    assert forall c :: c in cs[1..] ==> c in cs;
    forall o: nat | cs[0].end <= o && Occurs(value, "<!--", o) ensures Covered(cs[1..], o) {
      var i :| 0 <= i < |cs| && Covers(cs[i], o);
      assert Covers(cs[1..][i - 1], o);
    }
  }

  function Moved(spans: seq<Span>, distance: nat): (r: seq<Span>)
    ensures |r| == |spans| &&
            forall i :: 0 <= i < |r| ==> r[i] == Span(spans[i].start + distance, spans[i].end + distance)
  {
    seq(|spans|, i requires 0 <= i < |spans| => Span(spans[i].start + distance, spans[i].end + distance))
  }

  function AllComments(nodes: seq<HtmlNode>): seq<Span> {
    if nodes == [] then []
    else AllComments(nodes[..|nodes| - 1]) + Moved(Comments(nodes[|nodes| - 1].value, 0), nodes[|nodes| - 1].offset)
  }

  lemma {:induction false} AllCommentsNonEmpty(nodes: seq<HtmlNode>)
    ensures forall i :: 0 <= i < |AllComments(nodes)| ==> AllComments(nodes)[i].start < AllComments(nodes)[i].end
  {
    if nodes != [] {
      AllCommentsNonEmpty(nodes[..|nodes| - 1]);
      var own := Comments(nodes[|nodes| - 1].value, 0);
      CommentsExact(nodes[|nodes| - 1].value, 0);
      hide Comments;
      forall i | 0 <= i < |own| ensures own[i].start < own[i].end { assert own[i] in own; }
    }
  }

  /** The character of the source at o lies in a comment of some html node. */
  ghost predicate InComment(nodes: seq<HtmlNode>, o: int) {
    exists n, cs :: 0 <= n < |nodes| && AreComments(nodes[n].value, cs, 0) && Covered(cs, o - nodes[n].offset)
  }

  lemma MovedCovers(spans: seq<Span>, distance: nat, o: int)
    ensures Covered(Moved(spans, distance), o) <==> Covered(spans, o - distance)
  {
    var moved := Moved(spans, distance);
    if i :| 0 <= i < |spans| && Covers(spans[i], o - distance) { assert Covers(moved[i], o); }
    if i :| 0 <= i < |spans| && Covers(moved[i], o) { assert Covers(spans[i], o - distance); }
  }

  lemma {:induction false} CoveredInComment(nodes: seq<HtmlNode>, o: int)
    ensures Covered(AllComments(nodes), o) <==> InComment(nodes, o)
  {
    hide Covered, AreComments, Comments, Moved;
    if nodes == [] {
      assert !Covered([], o) by { NothingCovered(o); }
    } else {
      var init, last := nodes[..|nodes| - 1], nodes[|nodes| - 1];
      CoveredInComment(init, o);
      CoveredLast(AllComments(init), Moved(Comments(last.value, 0), last.offset), o);
      MovedCovers(Comments(last.value, 0), last.offset, o);
      LastComment(init, last, o);
      assert nodes == init + [last];
    }
  }

  lemma NothingCovered(o: int)
    ensures !Covered([], o)
  {
  }

  lemma LastComment(init: seq<HtmlNode>, last: HtmlNode, o: int)
    ensures InComment(init + [last], o) <==>
            InComment(init, o) || Covered(Comments(last.value, 0), o - last.offset)
  {
    hide Covered, AreComments, Comments;
    var nodes := init + [last];
    CommentsExact(last.value, 0);
    forall cs | AreComments(last.value, cs, 0) ensures cs == Comments(last.value, 0) {
      CommentsUnique(last.value, cs, Comments(last.value, 0), 0);
    }
    assert nodes[|init|] == last;
    if n, cs :| 0 <= n < |init| && AreComments(init[n].value, cs, 0) && Covered(cs, o - init[n].offset) {
      assert nodes[n] == init[n];
    }
    if n, cs :| 0 <= n < |nodes| && AreComments(nodes[n].value, cs, 0) && Covered(cs, o - nodes[n].offset) {
      if n < |init| { assert nodes[n] == init[n]; }
    }
  }

  // ----- from offsets to columns -----

  /** What one comment covers of a line. */
  function Columns(c: Span, offset: nat, size: nat): seq<Span> {
    var from, to := Max(c.start, offset), Min(c.end, offset + size);
    if from < to || (size == 0 && c.start <= offset && c.end > offset)
    then [Span(from - offset, if to >= offset then to - offset else 0)] else []
  }

  function LineRanges(comments: seq<Span>, offset: nat, size: nat): seq<Span> {
    if comments == [] then []
    else LineRanges(comments[..|comments| - 1], offset, size) + Columns(comments[|comments| - 1], offset, size)
  }

  /** A comment covers some of the line; of an empty line, its line break. */
  ghost predicate Touched(comments: seq<Span>, offset: nat, size: nat) {
    exists o :: offset <= o < offset + Max(1, size) && Covered(comments, o)
  }

  lemma CoveredLast(spans: seq<Span>, more: seq<Span>, o: int)
    ensures Covered(spans + more, o) <==> Covered(spans, o) || Covered(more, o)
  {
    var all := spans + more;
    if Covered(spans, o) {
      var i :| 0 <= i < |spans| && Covers(spans[i], o);
      assert Covers(all[i], o);
    }
    if Covered(more, o) {
      var i :| 0 <= i < |more| && Covers(more[i], o);
      assert Covers(all[|spans| + i], o);
    }
    if Covered(all, o) {
      var i :| 0 <= i < |all| && Covers(all[i], o);
      if i >= |spans| { assert more[i - |spans|] == all[i]; }
    }
  }

  lemma ColumnsExact(c: Span, offset: nat, size: nat)
    requires c.start < c.end
    ensures var r := Columns(c, offset, size);
            && (forall s :: s in r ==> s.start <= s.end <= size)
            && (forall column: nat :: column < size ==> (Covered(r, column) <==> Covers(c, offset + column)))
            && (r != [] <==> exists o :: offset <= o < offset + Max(1, size) && Covers(c, o))
  {
    var r := Columns(c, offset, size);
    if r != [] {
      forall column: nat | column < size ensures Covered(r, column) <==> Covers(c, offset + column) {
        assert Covers(r[0], column) <==> Covers(c, offset + column);
      }
      assert Covers(c, Max(c.start, offset));
    } else {
      forall o | offset <= o < offset + Max(1, size) ensures !Covers(c, o) {}
    }
  }

  /** A column lies in a stored range exactly when its offset lies in a comment, and ranges are stored
      exactly for the lines that a comment touches. */
  lemma {:induction false} LineRangesExact(comments: seq<Span>, offset: nat, size: nat)
    requires forall i :: 0 <= i < |comments| ==> comments[i].start < comments[i].end
    ensures forall s :: s in LineRanges(comments, offset, size) ==> s.start <= s.end <= size
    ensures forall column: nat :: column < size ==>
              (Covered(LineRanges(comments, offset, size), column) <==> Covered(comments, offset + column))
    ensures LineRanges(comments, offset, size) != [] <==> Touched(comments, offset, size)
  {
    if comments != [] {
      var n := |comments| - 1;
      var init, c := comments[..n], comments[n];
      LineRangesExact(init, offset, size);
      ColumnsExact(c, offset, size);
      assert comments == init + [c];
      forall o ensures Covered(comments, o) <==> Covered(init, o) || Covers(c, o) {
        CoveredLast(init, [c], o);
        assert Covered([c], o) <==> Covers([c][0], o);
      }
      forall column: nat | column < size
        ensures Covered(LineRanges(comments, offset, size), column) <==> Covered(comments, offset + column)
      {
        CoveredLast(LineRanges(init, offset, size), Columns(c, offset, size), column);
      }
    }
  }

  // ----- htmlCommentRanges -----

  /** What the map holds for line l, counted from 0; the keys count from 1. */
  function Stored(ranges: map<nat, seq<Span>>, l: nat): seq<Span> {
    if l + 1 in ranges then ranges[l + 1] else []
  }

  function Store(ranges: map<nat, seq<Span>>, k: nat, spans: seq<Span>): map<nat, seq<Span>> {
    if spans == [] then ranges else ranges[k := spans]
  }

  function Ranges(comments: seq<Span>, rawLines: seq<string>, n: nat): map<nat, seq<Span>>
    requires n <= |rawLines|
  {
    if n == 0 then map[]
    else Store(Ranges(comments, rawLines, n - 1), n,
        LineRanges(comments, LineStart(rawLines, n - 1), |rawLines[n - 1]|))
  }

  lemma {:induction false} RangesStored(comments: seq<Span>, rawLines: seq<string>, n: nat)
    requires n <= |rawLines|
    ensures forall k: nat :: k in Ranges(comments, rawLines, n) ==> 1 <= k <= n
    ensures forall l: nat :: l < n ==>
              Stored(Ranges(comments, rawLines, n), l) == LineRanges(comments, LineStart(rawLines, l), |rawLines[l]|)
              && (l + 1 in Ranges(comments, rawLines, n) <==> Stored(Ranges(comments, rawLines, n), l) != [])
  {
    hide LineRanges, LineStart;
    if n > 0 { RangesStored(comments, rawLines, n - 1); }
  }

  method HtmlCommentRanges(nodes: seq<HtmlNode>, rawLines: seq<string>) returns (ranges: map<nat, seq<Span>>)
    ensures ranges == Ranges(AllComments(nodes), rawLines, |rawLines|)
  {
    hide Comments, LineRanges, LineStart;
    var comments := [];
    for n := 0 to |nodes|
      invariant comments == AllComments(nodes[..n])
    {
      var own := NodeComments(nodes[n]);
      comments := comments + own;
      assert nodes[..n + 1][..n] == nodes[..n];
    }
    assert nodes[..|nodes|] == nodes;
    ranges := Project(comments, rawLines);
  }

  method NodeComments(node: HtmlNode) returns (comments: seq<Span>)
    ensures comments == Moved(Comments(node.value, 0), node.offset)
  {
    hide Comments, Occurs, Moved;
    var value := node.value;
    var cursor := 0;
    comments := [];
    while true
      invariant cursor <= |value|
      invariant comments + Moved(Comments(value, cursor), node.offset) == Moved(Comments(value, 0), node.offset)
      decreases |value| - cursor
    {
      CommentsMoved(value, cursor, node.offset);
      var start := Find(value, "<!--", cursor);
      if start.None? { break; }
      var close := Find(value, "-->", start.value + 4);
      var end := if close.None? then |value| else close.value + 3;
      assert end == CommentEnd(value, start.value);
      var found := Span(node.offset + start.value, node.offset + end);
      AppendFirst(comments, found, Moved(Comments(value, end), node.offset));
      comments := comments + [found];
      cursor := end;
    }
  }

  lemma AppendFirst(a: seq<Span>, x: Span, b: seq<Span>)
    ensures a + ([x] + b) == (a + [x]) + b
  {
  }

  lemma CommentsMoved(value: string, cursor: nat, distance: nat)
    requires cursor <= |value|
    ensures var start := Find(value, "<!--", cursor);
            if start.None? then Moved(Comments(value, cursor), distance) == []
            else
              var end := CommentEnd(value, start.value);
              Moved(Comments(value, cursor), distance) ==
              [Span(distance + start.value, distance + end)] + Moved(Comments(value, end), distance)
  {
    hide Comments, Occurs, CommentEnd;
    CommentsStep(value, cursor);
  }

  method Project(comments: seq<Span>, rawLines: seq<string>) returns (ranges: map<nat, seq<Span>>)
    ensures ranges == Ranges(comments, rawLines, |rawLines|)
  {
    hide LineRanges;
    ranges := map[];
    var lineOffset := 0;
    for index := 0 to |rawLines|
      invariant lineOffset == LineStart(rawLines, index) && ranges == Ranges(comments, rawLines, index)
    {
      RangesStored(comments, rawLines, index);
      ranges := ProjectLine(comments, index, lineOffset, |rawLines[index]|, ranges);
      lineOffset := lineOffset + |rawLines[index]| + 1;
    }
  }

  /** One line: its ranges are stored under its number, nothing else changes. */
  method ProjectLine(comments: seq<Span>, index: nat, lineOffset: nat, size: nat, before: map<nat, seq<Span>>)
    returns (ranges: map<nat, seq<Span>>)
    requires index + 1 !in before
    ensures ranges == Store(before, index + 1, LineRanges(comments, lineOffset, size))
  {
    ranges := before;
    for j := 0 to |comments|
      invariant ranges == Store(before, index + 1, LineRanges(comments[..j], lineOffset, size))
    {
      var c := comments[j];
      var from, to := Max(c.start, lineOffset), Min(c.end, lineOffset + size);
      var coversEmptyLine := size == 0 && c.start <= lineOffset && c.end > lineOffset;
      assert comments[..j + 1][..j] == comments[..j];
      assert Columns(c, lineOffset, size) == if from < to || coversEmptyLine then
             [Span(from - lineOffset, to - lineOffset)] else [];
      hide Columns;
      assert LineRanges(comments[..j + 1], lineOffset, size) ==
             LineRanges(comments[..j], lineOffset, size) + Columns(c, lineOffset, size);
      hide LineRanges;
      if from < to || coversEmptyLine {
        var lineRanges := if index + 1 in ranges then ranges[index + 1] else [];
        StoreMore(before, index + 1, LineRanges(comments[..j], lineOffset, size),
          Span(from - lineOffset, to - lineOffset));
        ranges := ranges[index + 1 := lineRanges + [Span(from - lineOffset, to - lineOffset)]];
      } else {
        assert LineRanges(comments[..j], lineOffset, size) + [] == LineRanges(comments[..j], lineOffset, size);
      }
    }
    assert comments[..|comments|] == comments;
  }

  lemma StoreMore(before: map<nat, seq<Span>>, k: nat, spans: seq<Span>, s: Span)
    requires k !in before
    ensures var ranges := Store(before, k, spans);
            Store(before, k, spans + [s]) == ranges[k := (if k in ranges then ranges[k] else []) + [s]]
  {
    if spans == [] { assert spans + [s] == [] + [s]; }
  }

  /** The stored ranges speak about the source: a character at a line and column lies in a stored range
      of its line if and only if that character of the source lies in some comment. */
  lemma ProjectionExact(source: string, nodes: seq<HtmlNode>, l: nat, column: nat)
    requires l < |Lines(source)| && column < |Lines(source)[l]|
    ensures var lines := Lines(source);
            var offset := LineStart(lines, l) + column;
            && offset < |source| && source[offset] == lines[l][column]
            && (Covered(Stored(Ranges(AllComments(nodes), lines, |lines|), l), column) <==>
               Covered(AllComments(nodes), offset))
  {
    var lines := Lines(source);
    LinesAddress(source, l, column);
    AllCommentsNonEmpty(nodes);
    RangesStored(AllComments(nodes), lines, |lines|);
    hide Lines, LineStart, LineRanges, AllComments, Ranges, Covered;
    LineRangesExact(AllComments(nodes), LineStart(lines, l), |lines[l]|);
  }

  // ----- hasRenderedTextOutsideComments -----

  function TrimStart(s: string): string {
    if s != "" && IsSpace(s[0]) then TrimStart(s[1..]) else s
  }

  function TrimEnd(s: string): (r: string)
    ensures r <= s && (r != "" ==> !IsSpace(r[|r| - 1])) && forall i :: |r| <= i < |s| ==> IsSpace(s[i])
  {
    if s != "" && IsSpace(s[|s| - 1]) then TrimEnd(s[..|s| - 1]) else s
  }

  predicate Blank(s: string) { forall i :: 0 <= i < |s| ==> IsSpace(s[i]) }

  lemma {:induction false} TrimStartBlank(s: string)
    ensures TrimStart(s) == "" <==> Blank(s)
    ensures TrimStart(s) != "" ==> !IsSpace(TrimStart(s)[0])
  {
    if s != "" && IsSpace(s[0]) {
      TrimStartBlank(s[1..]);
      if Blank(s[1..]) { forall i | 0 <= i < |s| ensures IsSpace(s[i]) { if i > 0 { assert s[i] == s[1..][i - 1]; } } }
    }
  }

  lemma {:induction false} TrimEndKeeps(s: string)
    requires s != "" && !IsSpace(s[0])
    ensures TrimEnd(s) != ""
  {
    if IsSpace(s[|s| - 1]) { TrimEndKeeps(s[..|s| - 1]); }
  }

  /** The text is blank exactly when nothing is left after trimming. */
  lemma TrimBlank(s: string)
    ensures TrimEnd(TrimStart(s)) == "" <==> Blank(s)
  {
    TrimStartBlank(s);
    if TrimStart(s) != "" { TrimEndKeeps(TrimStart(s)); }
  }

  /** The characters outside all spans among the first n. */
  function Outside(raw: string, spans: seq<Span>, n: nat): string
    requires n <= |raw|
  {
    if n == 0 then "" else Outside(raw, spans, n - 1) + if Covered(spans, n - 1) then "" else [raw[n - 1]]
  }

  lemma {:induction false} OutsideUniform(raw: string, spans: seq<Span>, a: nat, b: nat, covered: bool)
    requires a <= b <= |raw| && forall p :: a <= p < b ==> Covered(spans, p) == covered
    ensures Outside(raw, spans, b) == Outside(raw, spans, a) + if covered then "" else raw[a..b]
    decreases b - a
  {
    if a < b { OutsideUniform(raw, spans, a, b - 1, covered); }
  }

  /** What remains is blank exactly when every character outside the spans is white space. */
  lemma {:induction false} OutsideBlank(raw: string, spans: seq<Span>, n: nat)
    requires n <= |raw|
    ensures Blank(Outside(raw, spans, n)) <==> forall p :: 0 <= p < n && !Covered(spans, p) ==> IsSpace(raw[p])
  {
    if n > 0 {
      OutsideBlank(raw, spans, n - 1);
      var before, all := Outside(raw, spans, n - 1), Outside(raw, spans, n);
      assert all[..|before|] == before;
      if Blank(all) { forall i | 0 <= i < |before| ensures IsSpace(before[i]) { assert all[i] == before[i]; } }
      if !Covered(spans, n - 1) { assert all[|before|] == raw[n - 1]; }
    }
  }

  function ByStart(a: Span, b: Span): int { a.start - b.start }

  lemma ByStartTotal()
    ensures Total(ByStart)
  {
    forall a, b ensures Signs(ByStart, a, b) {}
    forall a, b, c ensures Chains(ByStart, a, b, c) {}
  }

  lemma CoveredPermutes(s: seq<Span>, t: seq<Span>, o: int)
    requires multiset(s) == multiset(t)
    ensures Covered(s, o) <==> Covered(t, o)
  {
    SameElements(s, t);
    if Covered(s, o) {
      var i :| 0 <= i < |s| && Covers(s[i], o);
      assert s[i] in t;
      var j :| 0 <= j < |t| && t[j] == s[i];
    }
    if Covered(t, o) {
      var i :| 0 <= i < |t| && Covers(t[i], o);
      assert t[i] in s;
      var j :| 0 <= j < |s| && s[j] == t[i];
    }
  }

  /** The moving cursor handles overlapping and nested ranges: what it collects is what lies outside
      their union. */
  method HasRenderedText(raw: string, ranges: Option<seq<Span>>) returns (r: bool)
    requires ranges.Some? ==> forall s :: s in ranges.value ==> s.start <= s.end <= |raw|
    ensures r <==> ranges.None? || exists p :: 0 <= p < |raw| && !Covered(ranges.value, p) && !IsSpace(raw[p])
  {
    if ranges.None? { return true; }
    hide Total, Sorted, Sort, Covered, Outside, Blank, TrimStart, TrimEnd, IsSpace;
    var sorted := Sort(ranges.value, ByStart);
    ByStartTotal();
    SortSorts(ranges.value, ByStart);
    SameElements(ranges.value, sorted);
    forall k | 0 <= k < |sorted| ensures sorted[k].start <= sorted[k].end <= |raw| { assert sorted[k] in sorted; }
    var visible := Visible(raw, sorted);
    TrimBlank(visible);
    VisibleBlank(raw, ranges.value, sorted);
    r := TrimEnd(TrimStart(visible)) != "";
  }

  /** What the loop collects from the sorted ranges. */
  method Visible(raw: string, sorted: seq<Span>) returns (visible: string)
    requires Sorted(sorted, ByStart) && forall k :: 0 <= k < |sorted| ==> sorted[k].start <= sorted[k].end <= |raw|
    ensures visible == Outside(raw, sorted, |raw|)
  {
    hide Sorted, Covered, Outside;
    var cursor: nat := 0;
    visible := "";
    OutsideNothing(raw, sorted);
    for i := 0 to |sorted|
      invariant cursor <= |raw|
      invariant forall k :: 0 <= k < i ==> sorted[k].end <= cursor
      invariant visible == Outside(raw, sorted, cursor)
    {
      var s := sorted[i];
      CursorStep(raw, sorted, i, cursor);
      if cursor <= s.start { visible := visible + raw[cursor..s.start]; }
      cursor := Max(cursor, s.end);
    }
    OutsideRest(raw, sorted, cursor);
    visible := visible + raw[cursor..];
  }

  lemma OutsideRest(raw: string, sorted: seq<Span>, cursor: nat)
    requires cursor <= |raw| && forall k :: 0 <= k < |sorted| ==> sorted[k].end <= cursor
    ensures Outside(raw, sorted, |raw|) == Outside(raw, sorted, cursor) + raw[cursor..]
  {
    hide Outside;
    forall p | cursor <= p < |raw| ensures !Covered(sorted, p) {}
    hide Covered;
    OutsideUniform(raw, sorted, cursor, |raw|, false);
    assert raw[cursor..] == raw[cursor..|raw|];
  }

  lemma OutsideNothing(raw: string, spans: seq<Span>)
    ensures Outside(raw, spans, 0) == ""
  {
  }

  lemma VisibleBlank(raw: string, ranges: seq<Span>, sorted: seq<Span>)
    requires multiset(ranges) == multiset(sorted)
    ensures Blank(Outside(raw, sorted, |raw|)) <==>
            forall p :: 0 <= p < |raw| && !Covered(ranges, p) ==> IsSpace(raw[p])
  {
    hide Outside, Blank, IsSpace, Covered;
    OutsideBlank(raw, sorted, |raw|);
    forall p ensures Covered(sorted, p) <==> Covered(ranges, p) { CoveredPermutes(sorted, ranges, p); }
  }

  lemma CursorStep(raw: string, sorted: seq<Span>, i: nat, cursor: nat)
    requires i < |sorted| && Sorted(sorted, ByStart) && cursor <= |raw|
    requires sorted[i].start <= sorted[i].end <= |raw|
    requires forall k :: 0 <= k < i ==> sorted[k].end <= cursor
    ensures var s := sorted[i];
            Outside(raw, sorted, Max(cursor, s.end)) ==
            Outside(raw, sorted, cursor) + if cursor <= s.start then raw[cursor..s.start] else ""
  {
    var s := sorted[i];
    var from := Max(cursor, s.start);
    forall p | cursor <= p < from ensures !Covered(sorted, p) {
      forall k | 0 <= k < |sorted| ensures !Covers(sorted[k], p) {
        if k > i { assert ByStart(sorted[i], sorted[k]) <= 0; }
      }
    }
    OutsideUniform(raw, sorted, cursor, from, false);
    if from <= s.end {
      forall p | from <= p < s.end ensures Covered(sorted, p) { assert Covers(sorted[i], p); }
      OutsideUniform(raw, sorted, from, s.end, true);
    }
  }

  // ----- markdownProseLines -----

  /** A code block: its first and last line, counted from 1. */
  datatype Block = Block(first: nat, last: nat)

  datatype ProseLine = ProseLine(index: nat, raw: string)

  ghost predicate Fenced(blocks: seq<Block>, index: nat) {
    exists b :: b in blocks && b.first <= index <= b.last
  }

  /** Outside every code block, and either no comment touches the line or some visible character of it
      lies in no comment. Everything is said in offsets of the source. */
  ghost predicate IsProse(lines: seq<string>, comments: seq<Span>, blocks: seq<Block>, l: nat)
    requires l < |lines|
  {
    var start := LineStart(lines, l);
    && !Fenced(blocks, l + 1)
    && (!Touched(comments, start, |lines[l]|)
        || exists p :: 0 <= p < |lines[l]| && !Covered(comments, start + p) && !IsSpace(lines[l][p]))
  }

  ghost function ProseLines(lines: seq<string>, comments: seq<Span>, blocks: seq<Block>, n: nat): seq<ProseLine>
    requires n <= |lines|
  {
    if n == 0 then []
    else ProseLines(lines, comments, blocks, n - 1)
         + if IsProse(lines, comments, blocks, n - 1) then [ProseLine(n, lines[n - 1])] else []
  }

  /** Line l, counted from 0, is outside every code block, and no character of it (of an empty line, not
      its line break) lies in a comment, or some visible character lies in none. */
  ghost predicate Shown(source: string, nodes: seq<HtmlNode>, blocks: seq<Block>, l: nat)
    requires l < |Lines(source)|
  {
    var line, start := Lines(source)[l], LineStart(Lines(source), l);
    && (forall b :: b in blocks ==> l + 1 < b.first || b.last < l + 1)
    && (|| (forall o :: start <= o < start + Max(1, |line|) ==> !InComment(nodes, o))
        || exists p :: 0 <= p < |line| && !InComment(nodes, start + p) && !IsSpace(line[p]))
  }

  lemma ShownExact(source: string, nodes: seq<HtmlNode>, blocks: seq<Block>, l: nat)
    requires l < |Lines(source)|
    ensures IsProse(Lines(source), AllComments(nodes), blocks, l) <==> Shown(source, nodes, blocks, l)
  {
    hide Covered, InComment, AllComments, Lines, LineStart, IsSpace;
    forall o ensures Covered(AllComments(nodes), o) <==> InComment(nodes, o) { CoveredInComment(nodes, o); }
  }

  lemma KeptMeaning(source: string, nodes: seq<HtmlNode>, blocks: seq<Block>)
    ensures var kept := ProseLines(Lines(source), AllComments(nodes), blocks, |Lines(source)|);
            && (forall k :: k in kept <==>
                  && 1 <= k.index <= |Lines(source)| && k.raw == Lines(source)[k.index - 1]
                  && Shown(source, nodes, blocks, k.index - 1))
            && (forall i, j :: 0 <= i < j < |kept| ==> kept[i].index < kept[j].index)
  {
    ProseLinesExact(Lines(source), AllComments(nodes), blocks, |Lines(source)|);
    hide Shown, IsProse, Lines, AllComments, ProseLines;
    forall l: nat | l < |Lines(source)|
      ensures IsProse(Lines(source), AllComments(nodes), blocks, l) <==> Shown(source, nodes, blocks, l)
    {
      ShownExact(source, nodes, blocks, l);
    }
  }

  /** The lines kept are exactly the prose lines, verbatim, numbered, and in order. */
  method MarkdownProseLines(source: string, nodes: seq<HtmlNode>, blocks: seq<Block>) returns (kept: seq<ProseLine>)
    ensures kept == ProseLines(Lines(source), AllComments(nodes), blocks, |Lines(source)|)
    ensures forall k :: k in kept <==>
              && 1 <= k.index <= |Lines(source)| && k.raw == Lines(source)[k.index - 1]
              && Shown(source, nodes, blocks, k.index - 1)
    ensures forall i, j :: 0 <= i < j < |kept| ==> kept[i].index < kept[j].index
  {
    KeptMeaning(source, nodes, blocks);
    hide Shown, Fenced, Covered, Touched, AllComments, Lines, LineStart, LineRanges, IsProse, Ranges;
    var rawLines := Lines(source);
    ghost var all := AllComments(nodes);
    AllCommentsNonEmpty(nodes);
    var comments := HtmlCommentRanges(nodes, rawLines);
    var fenced := FencedLines(blocks);
    kept := [];
    for i := 0 to |rawLines|
      invariant kept == ProseLines(rawLines, all, blocks, i)
    {
      if i + 1 in fenced {
        FencedIsNoProse(rawLines, all, blocks, i);
      } else {
        StoredRanges(all, rawLines, i);
        var ranges := if i + 1 in comments then Some(comments[i + 1]) else None;
        var rendered := HasRenderedText(rawLines[i], ranges);
        RenderedProse(rawLines, all, blocks, i, ranges);
        if rendered { kept := kept + [ProseLine(i + 1, rawLines[i])]; }
      }
    }
  }

  lemma FencedIsNoProse(lines: seq<string>, comments: seq<Span>, blocks: seq<Block>, l: nat)
    requires l < |lines| && Fenced(blocks, l + 1)
    ensures !IsProse(lines, comments, blocks, l)
  {
  }

  lemma StoredRanges(comments: seq<Span>, rawLines: seq<string>, l: nat)
    requires l < |rawLines| && forall i :: 0 <= i < |comments| ==> comments[i].start < comments[i].end
    ensures var ranges, spans :=
            Ranges(comments, rawLines, |rawLines|), LineRanges(comments, LineStart(rawLines, l), |rawLines[l]|);
            && (l + 1 in ranges <==> spans != []) && (l + 1 in ranges ==> ranges[l + 1] == spans)
            && forall s :: s in spans ==> s.start <= s.end <= |rawLines[l]|
  {
    hide LineStart, LineRanges, Ranges, Covered, Touched;
    RangesStored(comments, rawLines, |rawLines|);
    LineRangesExact(comments, LineStart(rawLines, l), |rawLines[l]|);
    assert Stored(Ranges(comments, rawLines, |rawLines|), l) ==
           LineRanges(comments, LineStart(rawLines, l), |rawLines[l]|);
  }

  lemma RenderedProse(lines: seq<string>, comments: seq<Span>, blocks: seq<Block>, l: nat, ranges: Option<seq<Span>>)
    requires l < |lines| && !Fenced(blocks, l + 1)
    requires forall i :: 0 <= i < |comments| ==> comments[i].start < comments[i].end
    requires var spans := LineRanges(comments, LineStart(lines, l), |lines[l]|);
             ranges == if spans == [] then None else Some(spans)
    ensures IsProse(lines, comments, blocks, l) <==>
            ranges.None? || exists p :: 0 <= p < |lines[l]| && !Covered(ranges.value, p) && !IsSpace(lines[l][p])
  {
    hide LineStart, LineRanges, Fenced, Touched, Covered;
    LineRangesExact(comments, LineStart(lines, l), |lines[l]|);
  }

  method FencedLines(blocks: seq<Block>) returns (fenced: set<nat>)
    ensures forall index: nat :: index in fenced <==> Fenced(blocks, index)
  {
    fenced := {};
    for i := 0 to |blocks|
      invariant forall index: nat :: index in fenced <==> Fenced(blocks[..i], index)
    {
      ghost var before := fenced;
      var line := blocks[i].first;
      while line <= blocks[i].last
        invariant blocks[i].first <= line
        invariant forall index: nat :: index in fenced <==>
                  index in before || (blocks[i].first <= index <= blocks[i].last && index < line)
        decreases blocks[i].last + 1 - line
      {
        fenced := fenced + {line};
        line := line + 1;
      }
      assert blocks[..i + 1] == blocks[..i] + [blocks[i]];
    }
    assert blocks[..|blocks|] == blocks;
  }

  /** A line is kept if and only if it is prose, at its own number and unchanged, and the numbers
      increase. */
  lemma {:induction false} ProseLinesExact(lines: seq<string>, comments: seq<Span>, blocks: seq<Block>, n: nat)
    requires n <= |lines|
    ensures var kept := ProseLines(lines, comments, blocks, n);
            && (forall k :: k in kept <==>
               1 <= k.index <= n && k.raw == lines[k.index - 1] && IsProse(lines, comments, blocks, k.index - 1))
            && (forall i, j :: 0 <= i < j < |kept| ==> kept[i].index < kept[j].index)
  {
    if n > 0 {
      hide IsProse;
      ProseLinesExact(lines, comments, blocks, n - 1);
      var before := ProseLines(lines, comments, blocks, n - 1);
      forall i | 0 <= i < |before| ensures before[i].index < n { assert before[i] in before; }
    }
  }
}
