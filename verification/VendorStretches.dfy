/** `rescope-vendor`: what the rewrite of a stretch of a line preserves, and its reverse mode. */
module VendorStretches {
  import opened Basics
  import opened Text
  import opened VendorRename
  import opened VendorRewrite

  // ----- a stretch -----

  function FoldLine(l: Line, all: seq<Pattern>): Line {
    Line(FoldHead(l.head, l.tail == [], all), Fold(l.tail, all))
  }

  lemma ReplaceNameProper(head: string, closed: bool, r: Pattern)
    requires Unquoted(head) && Plain(r.to)
    ensures Unquoted(ReplaceName(head, closed, r))
  {
    hide NameAt;
    forall c | c in ReplaceName(head, closed, r) ensures !IsQuote(c) {
      ReplaceNameMeaning(head, closed, r);
      assert c in head || c in r.to;
    }
  }

  lemma RewriteStep(l: Line, r: Pattern)
    requires Proper(l) && Plain(r.from) && Plain(r.to)
    ensures var next := Line(ReplaceName(l.head, l.tail == [], r), Pass(l.tail, r));
            Proper(next) && StretchWith(Join(l), r) == Join(next)
  {
    hide Plain, Unquoted, ReplaceTokens, ReplaceName, Names;
    var tail := Pass(l.tail, r);
    ReplacePlain(l.head, JoinPieces(l.tail), r);
    ReplacePieces(l.tail, r);
    PassProper(l.tail, r);
    JoinDelimited(tail);
    assert JoinPieces(tail) == "" <==> l.tail == [];
    ReplaceNameLocal(l.head, JoinPieces(tail), r);
    ReplaceNameProper(l.head, l.tail == [], r);
  }

  /** The replacements on the raw text, name by name, are the passes over its pieces. */
  lemma {:induction false} RewriteIsFold(l: Line, all: seq<Pattern>)
    requires Proper(l) && PlainTable(all)
    ensures Proper(FoldLine(l, all)) && StretchAll(Join(l), all) == Join(FoldLine(l, all))
    decreases |all|
  {
    if all != [] {
      var n := |all| - 1;
      CleanInit(all);
      assert all[n] in all && forall r :: r in all[..n] ==> r in all;
      RewriteIsFold(l, all[..n]);
      hide Plain, Proper;
      RewriteStep(FoldLine(l, all[..n]), all[n]);
    }
  }

  /** The stretch names no new package. */
  ghost predicate ScopeFree(s: string, all: seq<Pattern>) {
    var l := Split(s);
    forall r :: r in all ==> !NameAt(l.head, l.tail == [], r.to) && forall k :: !TokenAt(l.tail, k, r.to)
  }

  /** The stretch names no old package. */
  ghost predicate ResidueFree(s: string, all: seq<Pattern>) {
    var l := Split(s);
    forall r :: r in all ==> !NameAt(l.head, l.tail == [], r.from) && forall k :: !TokenAt(l.tail, k, r.from)
  }

  ghost predicate Shares(s: string, all: seq<Pattern>) {
    exists r :: r in all && Sharing(Split(s).tail, r.from)
  }

  /** On a stretch without new names, the reverse mode restores what the rewrite changed. */
  lemma StretchReverses(s: string, all: seq<Pattern>, back: seq<Pattern>)
    requires PlainTable(all) && PlainTable(back) && Reverses(back, all) && ScopeFree(s, all)
    ensures StretchAll(StretchAll(s, all), back) == s
  {
    var l := Split(s);
    SplitProper(s);
    RewriteIsFold(l, all);
    RewriteIsFold(FoldLine(l, all), back);
    hide Plain, Proper, NameAt, TokenAt, Join, FoldHead, Fold;
    FoldHeadReverses(l.head, l.tail == [], all, back);
    FoldReverses(l.tail, all, back);
  }

  /** A stretch is left alone exactly when it names no old package. */
  lemma StretchUnchanged(s: string, all: seq<Pattern>)
    requires PlainTable(all)
    ensures StretchAll(s, all) == s <==> ResidueFree(s, all)
  {
    var l := Split(s);
    SplitProper(s);
    RewriteIsFold(l, all);
    SplitJoin(FoldLine(l, all));
    hide Plain, Proper, NameAt, TokenAt, Join, FoldHead, Fold;
    FoldHeadIdempotent(l.head, l.tail == [], all);
    FoldFixed(l.tail, all);
    assert StretchAll(s, all) == s <==> FoldLine(l, all) == l;
  }

  /** A second rewrite of a stretch changes nothing if and only if no two tokens of one name share a quote
      in it; a third one never does. */
  lemma StretchIdempotent(s: string, all: seq<Pattern>)
    requires PlainTable(all)
    ensures StretchAll(StretchAll(s, all), all) == StretchAll(s, all) <==> !Shares(s, all)
    ensures var twice := StretchAll(StretchAll(s, all), all); StretchAll(twice, all) == twice && ResidueFree(twice, all)
  {
    var l := Split(s);
    SplitProper(s);
    RewriteIsFold(l, all);
    var m := FoldLine(l, all);
    RewriteIsFold(m, all);
    var n := FoldLine(m, all);
    RewriteIsFold(n, all);
    SplitJoin(m);
    SplitJoin(n);
    hide Plain, Proper, NameAt, TokenAt, Join, FoldHead, Fold, Sharing;
    FoldHeadIdempotent(l.head, l.tail == [], all);
    FoldHeadIdempotent(m.head, m.tail == [], all);
    FoldIdempotent(l.tail, all);
    assert StretchAll(StretchAll(s, all), all) == StretchAll(s, all) <==> n == m;
    hide Clean, PlainTable;
    StretchUnchangedAt(s, all, l, m, n);
  }

  lemma StretchUnchangedAt(s: string, all: seq<Pattern>, l: Line, m: Line, n: Line)
    requires StretchAll(StretchAll(s, all), all) == Join(n) && StretchAll(Join(n), all) == Join(FoldLine(n, all)) &&
             FoldLine(n, all) == n
    requires PlainTable(all)
    ensures var twice := StretchAll(StretchAll(s, all), all); StretchAll(twice, all) == twice && ResidueFree(twice, all)
  {
    hide StretchAll, ResidueFree, PlainTable, Join;
    StretchUnchanged(Join(n), all);
  }

  /** Two tokens of one name that share a quote: the first pass misses the second one. */
  lemma SharedQuoteMissed()
    ensures var r := Pattern("cordis", "@deepseek-ai/cordis");
            var line := [Piece('\'', "cordis"), Piece('\'', "cordis"), Piece('\'', "")];
            && Pass(line, r) == [Piece('\'', "@deepseek-ai/cordis"), Piece('\'', "cordis"), Piece('\'', "")]
            && Sharing(line, r.from)
  {
    var r := Pattern("cordis", "@deepseek-ai/cordis");
    var line := [Piece('\'', "cordis"), Piece('\'', "cordis"), Piece('\'', "")];
    assert TokenAt(line, 0, r.from) && TokenAt(line, 0 + 1, r.from);
    assert Renamed(line[0], r) == Piece('\'', "@deepseek-ai/cordis");
    assert Pass(line[2..], r) == line[2..];
  }

  // ----- fences -----

  /** `/^\s*```/`. */
  predicate IsFence(s: string) {
    StartsWith(s[SpaceRun(s)..], "```")
  }

  /** A fence, read off the pieces: only white space, then three quotes with nothing between them. */
  predicate FencePieces(l: Line) {
    && SpaceRun(l.head) == |l.head|
    && |l.tail| >= 3
    && l.tail[0].quote == '`' && l.tail[0].text == ""
    && l.tail[1].quote == '`' && l.tail[1].text == ""
    && l.tail[2].quote == '`'
  }

  lemma FenceMeaning(l: Line)
    requires Proper(l)
    ensures IsFence(Join(l)) <==> FencePieces(l)
  {
    hide JoinPieces, ProperPieces, IsSpace, StartsWith, SpaceRun, Unquoted;
    var rest, n := JoinPieces(l.tail), SpaceRun(l.head);
    JoinDelimited(l.tail);
    ThreeQuotes(l.tail);
    if n < |l.head| {
      TextFirst(l.head, rest);
    } else {
      SpaceFirst(l.head, rest);
    }
  }

  /** A line whose head has text in it is no fence. */
  lemma TextFirst(head: string, rest: string)
    requires Unquoted(head) && SpaceRun(head) < |head|
    ensures !IsFence(head + rest)
  {
    var s, n := head + rest, SpaceRun(head);
    assert s[n] == head[n] && head[n] in head;
    assert forall i :: 0 <= i < n ==> s[i] == head[i];
    SpaceRunUnique(s, n);
    hide SpaceRun, IsSpace;
    assert s[n..][0] == head[n];
    FenceFirst(s[n..]);
  }

  lemma FenceFirst(s: string)
    ensures StartsWith(s, "```") ==> s != "" && s[0] == '`'
  {
    if StartsWith(s, "```") { assert s[0] == s[..3][0]; }
  }

  lemma SpaceFirst(head: string, rest: string)
    requires Delimited(rest) && SpaceRun(head) == |head|
    ensures IsFence(head + rest) <==> StartsWith(rest, "```")
  {
    var s, n := head + rest, |head|;
    assert forall i :: 0 <= i < n ==> s[i] == head[i];
    if rest != "" { assert s[n] == rest[0]; }
    SpaceRunUnique(s, n);
    hide SpaceRun, IsSpace, StartsWith;
    assert s[n..] == rest;
  }

  lemma ThreeQuotes(tail: seq<Piece>)
    requires ProperPieces(tail)
    ensures StartsWith(JoinPieces(tail), "```") <==>
            |tail| >= 3 && tail[0].quote == '`' && tail[0].text == "" && tail[1].quote == '`' && tail[1].text == "" &&
              tail[2].quote == '`'
  {
    hide JoinPieces, StartsWith;
    QuoteFirst(tail, "``");
    assert "`" + "``" == "```" && "`" + "`" == "``" && "`" + "" == "`";
    if tail != [] {
      QuoteFirst(tail[1..], "`");
      if |tail| > 1 { QuoteFirst(tail[2..], ""); assert tail[1..][1..] == tail[2..]; }
    }
  }

  /** After a backquote, more of them follow exactly if the piece is empty and the next one begins with
      them. */
  lemma QuoteFirst(tail: seq<Piece>, more: string)
    requires ProperPieces(tail) && forall c :: c in more ==> c == '`'
    ensures StartsWith(JoinPieces(tail), "`" + more) <==>
            tail != [] && tail[0].quote == '`' &&
              (more == "" || (tail[0].text == "" && StartsWith(JoinPieces(tail[1..]), more)))
  {
    if tail != [] {
      var p, rest := tail[0], JoinPieces(tail[1..]);
      var s := JoinPieces(tail);
      assert s == [p.quote] + (p.text + rest);
      assert ("`" + more)[0] == '`' && ("`" + more)[1..] == more;
      StartsTail(p.quote, p.text + rest, more);
      if p.text != "" && more != "" {
        assert (p.text + rest)[0] == p.text[0] && p.text[0] in p.text;
        assert more[0] in more;
        assert StartsWith(p.text + rest, more) ==> (p.text + rest)[..|more|][0] == more[0];
      } else if p.text == "" {
        assert p.text + rest == rest;
      }
    }
  }

  lemma StartsTail(c: char, s: string, more: string)
    ensures StartsWith([c] + s, "`" + more) <==> c == '`' && StartsWith(s, more)
  {
    var t, p := [c] + s, "`" + more;
    if StartsWith(t, p) {
      assert t[..|p|][0] == p[0];
      assert s[..|more|] == t[..|p|][1..] == p[1..] == more;
    }
    if c == '`' && StartsWith(s, more) {
      assert t[..|p|] == [c] + s[..|more|];
    }
  }

  /** Rewriting a stretch neither makes a fence of it nor stops it from being one. */
  lemma FenceStays(s: string, all: seq<Pattern>)
    requires PlainTable(all)
    ensures IsFence(StretchAll(s, all)) <==> IsFence(s)
  {
    var l := Split(s);
    SplitProper(s);
    RewriteIsFold(l, all);
    FenceMeaning(l);
    FenceMeaning(FoldLine(l, all));
    hide Proper, IsFence, Join;
    HeadSpaceKept(l.head, l.tail == [], all);
    forall k | 0 <= k < |l.tail|
      ensures Fold(l.tail, all)[k].quote == l.tail[k].quote &&
              (Fold(l.tail, all)[k].text == "" <==> l.tail[k].text == "")
    {
      PieceKept(l.tail, all, k);
    }
    hide PlainTable, Fold, FoldHead;
  }

  lemma PieceKept(tail: seq<Piece>, all: seq<Pattern>, k: nat)
    requires PlainTable(all) && k < |tail|
    ensures Fold(tail, all)[k].quote == tail[k].quote && (Fold(tail, all)[k].text == "" <==> tail[k].text == "")
  {
    FoldExact(tail, all, k);
    if r :| r in all && Fires(tail, k, r.from) { assert Plain(r.from) && Plain(r.to); }
  }

  lemma HeadSpaceKept(head: string, closed: bool, all: seq<Pattern>)
    requires PlainTable(all)
    ensures var next := FoldHead(head, closed, all);
            SpaceRun(next) == |next| <==> SpaceRun(head) == |head|
  {
    hide Plain, ReplaceName, NameAt;
    FoldHeadExact(head, closed, all);
    if r :| r in all && NameAt(head, closed, r.from) {
      NameReplaced(head, closed, r);
      NamedNotBlank(head, closed, r.from);
      NamedNotBlank(ReplaceName(head, closed, r), closed, r.to);
    }
  }

  lemma NamedNotBlank(s: string, closed: bool, name: string)
    requires NameAt(s, closed, name)
    ensures SpaceRun(s) < |s|
  {
    var k := KeyStart(s);
    assert s[k..][..5] == "name:";
    assert s[k] == s[k..][..5][0] == 'n';
  }
}
