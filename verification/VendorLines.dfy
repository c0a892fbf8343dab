/** `rescope-vendor`: the rewrite of a whole line. A line has no line feed but may have other line
    terminators, such as a carriage return. White space stops every token, and in multiline mode the name
    entry is looked for between any two terminators; so each stretch between terminators is rewritten by
    itself. */
module VendorLines {
  import opened Basics
  import opened Text
  import opened VendorRename
  import opened VendorRewrite
  import opened VendorStretches

  /** What `^` and `$` also match at in multiline mode, and `.` does not match. */
  predicate IsTerminator(c: char) {
    c == '\r' || c == 0x2028 as char || c == 0x2029 as char
  }

  predicate Unbroken(s: string) {
    forall c :: c in s ==> !IsTerminator(c)
  }

  /** The length of the first stretch. */
  function Stretch(s: string): (n: nat)
    ensures n <= |s| && Unbroken(s[..n]) && (n < |s| ==> IsTerminator(s[n]))
  {
    if s == "" || IsTerminator(s[0]) then 0
    else
      assert s[..1 + Stretch(s[1..])] == [s[0]] + s[1..][..Stretch(s[1..])];
      1 + Stretch(s[1..])
  }

  /** `out.replace(pattern.yamlName, …)`. White space before the key may span terminators, which does not
      change what is replaced. */
  function ReplaceNames(s: string, r: Pattern): string
    decreases |s|
  {
    var n := Stretch(s);
    if n == |s| then ReplaceName(s, true, r) else ReplaceName(s[..n], true, r) + [s[n]] + ReplaceNames(s[n + 1..], r)
  }

  function RewriteWith(s: string, r: Pattern): string {
    ReplaceNames(ReplaceTokens(s, r), r)
  }

  function RewriteAll(s: string, all: seq<Pattern>): string {
    if all == [] then s else RewriteWith(RewriteAll(s, all[..|all| - 1]), all[|all| - 1])
  }

  method RewriteLine(line: string, all: seq<Pattern>) returns (out: string)
    ensures out == RewriteAll(line, all)
  {
    out := line;
    for i := 0 to |all|
      invariant out == RewriteAll(line, all[..i])
    {
      assert all[..i + 1][..i] == all[..i];
      out := ReplaceTokens(out, all[i]);
      out := ReplaceNames(out, all[i]);
    }
    assert all[..|all|] == all;
  }

  // ----- tokens do not reach across white space -----

  /** The token of length n at the start of s, character by character. */
  predicate IsToken(s: string, name: string, n: nat) {
    && |name| + 2 <= n <= |s| && IsQuote(s[0]) && s[n - 1] == s[0] && s[1..1 + |name|] == name
    && (n > |name| + 2 ==> s[1 + |name|] == '/')
    && forall i :: 1 + |name| <= i < n - 1 ==> !IsQuote(s[i]) && !IsSpace(s[i])
  }

  lemma TokenExact(s: string, name: string, n: nat)
    ensures TokenLength(s, name) == Some(n) <==> IsToken(s, name, n)
  {
    var k := 1 + |name|;
    if s != "" && IsQuote(s[0]) && StartsWith(s[1..], name) {
      assert s[1..k] == s[1..][..|name|];
      if k < |s| && s[k] == '/' {
        var m := PathRun(s[k..]);
        assert forall i :: k <= i < k + m ==> s[i] == s[k..][i - k];
        assert k + m < |s| ==> s[k + m] == s[k..][m];
        if IsToken(s, name, n) {
          assert forall i :: k <= i < n - 1 ==> s[k..][i - k] == s[i];
          PathRunUnique(s[k..], n - 1 - k);
        }
      }
    }
    if IsToken(s, name, n) { assert s[1..][..|name|] == s[1..k]; }
  }

  lemma SpaceIsNoQuote(c: char)
    ensures IsSpace(c) ==> !IsQuote(c) && c != '/' && c != '#'
  {
  }

  /** A token at the start of x, white space and more is a token of x. */
  lemma TokenStops(x: string, c: char, y: string, name: string)
    requires x != "" && IsSpace(c) && Plain(name)
    ensures TokenLength(x + [c] + y, name) == TokenLength(x, name)
  {
    var s := x + [c] + y;
    forall n: nat ensures IsToken(s, name, n) <==> IsToken(x, name, n) { TokenSame(x, c, y, name, n); }
    forall n: nat ensures TokenLength(s, name) == Some(n) <==> TokenLength(x, name) == Some(n) {
      TokenExact(s, name, n);
      TokenExact(x, name, n);
    }
    if TokenLength(s, name).Some? { assert TokenLength(x, name) == Some(TokenLength(s, name).value); }
    if TokenLength(x, name).Some? { assert TokenLength(s, name) == Some(TokenLength(x, name).value); }
  }

  lemma TokenSame(x: string, c: char, y: string, name: string, n: nat)
    requires x != "" && IsSpace(c) && Plain(name)
    ensures IsToken(x + [c] + y, name, n) <==> IsToken(x, name, n)
  {
    hide IsSpace;
    var s := x + [c] + y;
    SpaceIsNoQuote(c);
    if n <= |x| && |name| + 2 <= n {
      assert s[1..1 + |name|] == x[1..1 + |name|];
      assert forall i :: 0 <= i < |x| ==> s[i] == x[i];
    } else if IsToken(s, name, n) {
      SpaceInToken(s, name, n, |x|);
    }
  }

  lemma SpaceInToken(s: string, name: string, n: nat, i: nat)
    requires IsToken(s, name, n) && Plain(name) && 0 < i < n
    ensures !IsSpace(s[i])
  {
    SpaceIsNoQuote(s[i]);
    if i <= |name| { assert s[i] == s[1..1 + |name|][i - 1] == name[i - 1]; assert name[i - 1] in name; }
  }

  /** Replacing tokens works on both sides of white space by itself. */
  lemma {:induction false} TokensApart(x: string, c: char, y: string, r: Pattern)
    requires IsSpace(c) && Plain(r.from)
    ensures ReplaceTokens(x + [c] + y, r) == ReplaceTokens(x, r) + [c] + ReplaceTokens(y, r)
    decreases |x|
  {
    hide ReplaceTokens, TokenLength, IsSpace, Plain;
    var s := x + [c] + y;
    if x == "" {
      SpaceIsNoQuote(c);
      ReplaceEmpty(r);
      assert s == [c] + y && "" + [c] + ReplaceTokens(y, r) == [c] + ReplaceTokens(y, r);
      ReplaceOther(c, y, r);
    } else {
      TokenStops(x, c, y, r.from);
      ReplaceStep(s, r);
      ReplaceStep(x, r);
      var n := TokenLength(x, r.from);
      if n.Some? {
        TokensApart(x[n.value..], c, y, r);
        CutMiddle(x, c, y, 1 + |r.from|, n.value - 1);
        CutFrom(x, c, y, n.value);
        RegroupFive([x[0]], r.to, x[1 + |r.from|..n.value - 1], ReplaceTokens(x[n.value..], r), c, ReplaceTokens(y, r));
      } else {
        TokensApart(x[1..], c, y, r);
        CutFrom(x, c, y, 1);
        PutFirst(x[0], ReplaceTokens(x[1..], r), c, ReplaceTokens(y, r));
      }
    }
  }

  lemma ReplaceEmpty(r: Pattern)
    ensures ReplaceTokens("", r) == ""
  {
  }

  lemma CutMiddle(x: string, c: char, y: string, i: nat, j: nat)
    requires i <= j <= |x|
    ensures (x + [c] + y)[i..j] == x[i..j]
  {
  }

  lemma CutFrom(x: string, c: char, y: string, k: nat)
    requires k <= |x|
    ensures (x + [c] + y)[k..] == x[k..] + [c] + y
  {
  }

  lemma PutFirst(a: char, x: string, c: char, y: string)
    ensures [a] + (x + [c] + y) == ([a] + x) + [c] + y
  {
  }

  lemma RegroupFive(a: string, b: string, d: string, e: string, c: char, f: string)
    ensures a + b + d + a + (e + [c] + f) == (a + b + d + a + e) + [c] + f
  {
  }

  /** Neither replacement puts in a character that no new name has. */
  lemma {:induction false} TokensWithout(s: string, r: Pattern, c: char)
    requires c !in s && c !in r.to
    ensures c !in ReplaceTokens(s, r)
    decreases |s|
  {
    if s != "" {
      ReplaceStep(s, r);
      hide ReplaceTokens, TokenLength;
      var n := TokenLength(s, r.from);
      if n.Some? {
        TokensWithout(s[n.value..], r, c);
      } else {
        TokensWithout(s[1..], r, c);
      }
    }
  }

  lemma NameWithout(s: string, r: Pattern, c: char)
    requires c !in s && c !in r.to
    ensures c !in ReplaceName(s, true, r)
  {
    hide NameAt;
    ReplaceNameMeaning(s, true, r);
  }

  lemma {:induction false} NamesWithout(s: string, r: Pattern, c: char)
    requires c !in s && c !in r.to
    ensures c !in ReplaceNames(s, r)
    decreases |s|
  {
    hide ReplaceName;
    var n := Stretch(s);
    NameWithout(s[..n], r, c);
    if n < |s| { NamesWithout(s[n + 1..], r, c); } else { NameWithout(s, r, c); }
  }

  lemma PlainWithout(name: string, c: char)
    requires Plain(name) && IsSpace(c)
    ensures c !in name
  {
  }

  /** Rewriting puts in no white space: it breaks no line, and no stretch. */
  lemma {:induction false} RewriteWithout(s: string, all: seq<Pattern>, c: char)
    requires PlainTable(all) && IsSpace(c) && c !in s
    ensures c !in RewriteAll(s, all) && c !in StretchAll(s, all)
    decreases |all|
  {
    if all != [] {
      var n := |all| - 1;
      CleanInit(all);
      assert all[n] in all && forall r :: r in all[..n] ==> r in all;
      RewriteWithout(s, all[..n], c);
      PlainWithout(all[n].to, c);
      hide Plain, ReplaceName, ReplaceTokens, IsSpace;
      TokensWithout(RewriteAll(s, all[..n]), all[n], c);
      NamesWithout(ReplaceTokens(RewriteAll(s, all[..n]), all[n]), all[n], c);
      TokensWithout(StretchAll(s, all[..n]), all[n], c);
      NameWithout(ReplaceTokens(StretchAll(s, all[..n]), all[n]), all[n], c);
    }
  }

  lemma StretchUnbroken(s: string, all: seq<Pattern>)
    requires PlainTable(all) && Unbroken(s)
    ensures Unbroken(StretchAll(s, all))
  {
    hide StretchAll, PlainTable;
    forall c | c in StretchAll(s, all) ensures !IsTerminator(c) {
      if IsTerminator(c) { assert c !in s; RewriteWithout(s, all, c); }
    }
  }

  lemma TokensUnbroken(s: string, r: Pattern)
    requires Plain(r.to) && Unbroken(s)
    ensures Unbroken(ReplaceTokens(s, r))
  {
    hide ReplaceTokens;
    forall c | c in ReplaceTokens(s, r) ensures !IsTerminator(c) {
      if IsTerminator(c) { assert c !in s; PlainWithout(r.to, c); TokensWithout(s, r, c); }
    }
  }

  // ----- a line is rewritten stretch by stretch -----

  lemma {:induction false} StretchOf(x: string, c: char, y: string)
    requires Unbroken(x) && IsTerminator(c)
    ensures Stretch(x + [c] + y) == |x|
    decreases |x|
  {
    var s := x + [c] + y;
    if x == "" {
      assert s[0] == c;
    } else {
      assert x[0] in x && s[0] == x[0] && s[1..] == x[1..] + [c] + y;
      assert forall d :: d in x[1..] ==> d in x;
      StretchOf(x[1..], c, y);
    }
  }

  lemma {:induction false} StretchWhole(x: string)
    requires Unbroken(x)
    ensures Stretch(x) == |x|
  {
    if x != "" {
      assert x[0] in x;
      assert forall d :: d in x[1..] ==> d in x;
      StretchWhole(x[1..]);
    }
  }

  lemma NamesApart(x: string, c: char, y: string, r: Pattern)
    requires Unbroken(x) && IsTerminator(c)
    ensures ReplaceNames(x + [c] + y, r) == ReplaceName(x, true, r) + [c] + ReplaceNames(y, r)
  {
    hide ReplaceName;
    var s := x + [c] + y;
    StretchOf(x, c, y);
    assert s[..|x|] == x && s[|x|] == c && s[|x| + 1..] == y;
  }

  lemma NamesWhole(x: string, r: Pattern)
    requires Unbroken(x)
    ensures ReplaceNames(x, r) == ReplaceName(x, true, r)
  {
    StretchWhole(x);
  }

  /** The first stretch is rewritten by itself, the terminator kept, and the rest rewritten by itself. */
  lemma {:induction false} RewriteApart(x: string, c: char, y: string, all: seq<Pattern>)
    requires PlainTable(all) && Unbroken(x) && IsTerminator(c)
    ensures RewriteAll(x + [c] + y, all) == StretchAll(x, all) + [c] + RewriteAll(y, all)
    decreases |all|
  {
    if all != [] {
      var n := |all| - 1;
      var r := all[n];
      CleanInit(all);
      assert r in all && forall q :: q in all[..n] ==> q in all;
      assert Plain(r.from) && Plain(r.to) && IsSpace(c);
      hide ReplaceName, ReplaceTokens, Plain, IsSpace, IsTerminator, Unbroken, Clean;
      RewriteApart(x, c, y, all[..n]);
      StretchUnbroken(x, all[..n]);
      var before, after := StretchAll(x, all[..n]), RewriteAll(y, all[..n]);
      TokensApart(before, c, after, r);
      TokensUnbroken(before, r);
      NamesApart(ReplaceTokens(before, r), c, ReplaceTokens(after, r), r);
    }
  }

  lemma {:induction false} RewriteWhole(x: string, all: seq<Pattern>)
    requires PlainTable(all) && Unbroken(x)
    ensures RewriteAll(x, all) == StretchAll(x, all)
    decreases |all|
  {
    if all != [] {
      var n := |all| - 1;
      var r := all[n];
      CleanInit(all);
      assert r in all && forall q :: q in all[..n] ==> q in all;
      hide ReplaceName, ReplaceTokens, Plain, Unbroken, Clean;
      RewriteWhole(x, all[..n]);
      StretchUnbroken(x, all[..n]);
      TokensUnbroken(StretchAll(x, all[..n]), r);
      NamesWhole(ReplaceTokens(StretchAll(x, all[..n]), r), r);
    }
  }

  // ----- what holds of every stretch -----

  /** No stretch of the line names a new package. */
  ghost predicate NoScoped(s: string, all: seq<Pattern>)
    decreases |s|
  {
    var n := Stretch(s);
    ScopeFree(s[..n], all) && (n < |s| ==> NoScoped(s[n + 1..], all))
  }

  /** No stretch of the line names an old package. */
  ghost predicate NoResidue(s: string, all: seq<Pattern>)
    decreases |s|
  {
    var n := Stretch(s);
    ResidueFree(s[..n], all) && (n < |s| ==> NoResidue(s[n + 1..], all))
  }

  /** In some stretch two tokens of one name share a quote. */
  ghost predicate SharesQuotes(s: string, all: seq<Pattern>)
    decreases |s|
  {
    var n := Stretch(s);
    Shares(s[..n], all) || (n < |s| && SharesQuotes(s[n + 1..], all))
  }

  /** The line after a rewrite: where its first stretch ends, and the rest. */
  lemma RewriteFirst(s: string, all: seq<Pattern>)
    requires PlainTable(all)
    ensures var n := Stretch(s);
            var x := StretchAll(s[..n], all);
            && Unbroken(x)
            && RewriteAll(s, all) == (if n == |s| then x else x + [s[n]] + RewriteAll(s[n + 1..], all))
            && Stretch(RewriteAll(s, all)) == |x|
  {
    hide RewriteAll, StretchAll, PlainTable, Unbroken, IsTerminator;
    var n := Stretch(s);
    StretchUnbroken(s[..n], all);
    if n == |s| {
      assert s[..n] == s;
      RewriteWhole(s, all);
      StretchWhole(StretchAll(s, all));
    } else {
      CutAt(s, n);
      RewriteApart(s[..n], s[n], s[n + 1..], all);
      StretchOf(StretchAll(s[..n], all), s[n], RewriteAll(s[n + 1..], all));
    }
  }

  lemma SameParts(x: string, c: char, y: string, u: string, v: string)
    ensures x + [c] + y == u + [c] + v && |x| == |u| <==> x == u && y == v
  {
    var s, t := x + [c] + y, u + [c] + v;
    assert s[..|x|] == x && s[|x| + 1..] == y && t[..|u|] == u && t[|u| + 1..] == v;
  }

  /** On a line without new names, the reverse mode restores what the rewrite changed. */
  lemma {:induction false} LineReverses(s: string, all: seq<Pattern>, back: seq<Pattern>)
    requires PlainTable(all) && PlainTable(back) && Reverses(back, all) && NoScoped(s, all)
    ensures RewriteAll(RewriteAll(s, all), back) == s
    decreases |s|
  {
    hide RewriteAll, StretchAll, PlainTable, Reverses, ScopeFree, Unbroken, IsTerminator;
    var n := Stretch(s);
    RewriteFirst(s, all);
    StretchReverses(s[..n], all, back);
    if n == |s| {
      assert s[..n] == s;
      RewriteWhole(StretchAll(s, all), back);
    } else {
      LineReverses(s[n + 1..], all, back);
      RewriteApart(StretchAll(s[..n], all), s[n], RewriteAll(s[n + 1..], all), back);
      CutAt(s, n);
    }
  }

  /** A line is left alone exactly when it names no old package. */
  lemma {:induction false} LineUnchanged(s: string, all: seq<Pattern>)
    requires PlainTable(all)
    ensures RewriteAll(s, all) == s <==> NoResidue(s, all)
    decreases |s|
  {
    hide RewriteAll, StretchAll, PlainTable, ResidueFree, Unbroken, IsTerminator;
    var n := Stretch(s);
    RewriteFirst(s, all);
    StretchUnchanged(s[..n], all);
    if n == |s| {
      assert s[..n] == s;
    } else {
      LineUnchanged(s[n + 1..], all);
      CutAt(s, n);
      SameParts(StretchAll(s[..n], all), s[n], RewriteAll(s[n + 1..], all), s[..n], s[n + 1..]);
    }
  }

  /** A second rewrite of a line changes nothing if and only if no two tokens of one name share a quote in
      it; a third one never does. */
  lemma {:induction false} LineIdempotent(s: string, all: seq<Pattern>)
    requires PlainTable(all)
    ensures RewriteAll(RewriteAll(s, all), all) == RewriteAll(s, all) <==> !SharesQuotes(s, all)
    ensures var twice := RewriteAll(RewriteAll(s, all), all); RewriteAll(twice, all) == twice
    decreases |s|
  {
    hide RewriteAll, StretchAll, PlainTable, Shares, Unbroken, IsTerminator;
    var n := Stretch(s);
    var x := StretchAll(s[..n], all);
    var xx := StretchAll(x, all);
    RewriteFirst(s, all);
    StretchIdempotent(s[..n], all);
    StretchUnbroken(x, all);
    if n == |s| {
      assert s[..n] == s;
      RewriteWhole(x, all);
      RewriteWhole(xx, all);
    } else {
      var y := RewriteAll(s[n + 1..], all);
      var yy := RewriteAll(y, all);
      LineIdempotent(s[n + 1..], all);
      RewriteApart(x, s[n], y, all);
      RewriteApart(xx, s[n], yy, all);
      StretchOf(x, s[n], y);
      StretchOf(xx, s[n], yy);
      SameParts(xx, s[n], yy, x, y);
    }
  }

  // ----- fences -----

  lemma SpaceRunApart(x: string, c: char, y: string)
    requires IsSpace(c)
    ensures SpaceRun(x + [c] + y) == if SpaceRun(x) == |x| then |x| + 1 + SpaceRun(y) else SpaceRun(x)
  {
    hide IsSpace;
    var s, n := x + [c] + y, SpaceRun(x);
    if n == |x| {
      var m := SpaceRun(y);
      forall i | 0 <= i < n + 1 + m ensures IsSpace(s[i]) { assert i > n ==> s[i] == y[i - (n + 1)]; }
      assert n + 1 + m < |s| ==> s[n + 1 + m] == y[m];
      SpaceRunUnique(s, n + 1 + m);
    } else {
      SpaceRunUnique(s, n);
    }
  }

  /** White space may span terminators before a fence, but the fence itself does not. */
  lemma FenceApart(x: string, c: char, y: string)
    requires IsTerminator(c)
    ensures IsFence(x + [c] + y) <==> if SpaceRun(x) == |x| then IsFence(y) else IsFence(x)
  {
    hide IsTerminator, IsSpace, StartsWith, IsFence, SpaceRun;
    TerminatorIsSpace(c);
    if SpaceRun(x) == |x| { FenceAfter(x, c, y); } else { FenceWithin(x, c, y); }
  }

  lemma FenceAfter(x: string, c: char, y: string)
    requires IsSpace(c) && SpaceRun(x) == |x|
    ensures IsFence(x + [c] + y) <==> IsFence(y)
  {
    hide IsSpace, StartsWith, IsFence, SpaceRun;
    var s, m := x + [c] + y, SpaceRun(y);
    SpaceRunApart(x, c, y);
    CutLater(x, c, y, m);
    FenceAt(s);
    FenceAt(y);
  }

  lemma FenceWithin(x: string, c: char, y: string)
    requires IsSpace(c) && c != '`' && SpaceRun(x) < |x|
    ensures IsFence(x + [c] + y) <==> IsFence(x)
  {
    hide IsSpace, StartsWith, IsFence, SpaceRun;
    var s, n := x + [c] + y, SpaceRun(x);
    SpaceRunApart(x, c, y);
    CutFrom(x, c, y, n);
    FenceStops(x[n..], c, y);
    FenceAt(s);
    FenceAt(x);
  }

  lemma CutLater(x: string, c: char, y: string, k: nat)
    requires k <= |y|
    ensures (x + [c] + y)[|x| + 1 + k..] == y[k..]
  {
  }

  lemma FenceAt(s: string)
    ensures IsFence(s) <==> StartsWith(s[SpaceRun(s)..], "```")
  {
  }

  lemma TerminatorIsSpace(c: char)
    requires IsTerminator(c)
    ensures IsSpace(c) && c != '`'
  {
  }

  lemma ThreeBackquotes(s: string)
    ensures StartsWith(s, "```") <==> |s| >= 3 && s[0] == '`' && s[1] == '`' && s[2] == '`'
  {
    if |s| >= 3 { assert s[..3] == [s[0], s[1], s[2]]; }
  }

  lemma FenceStops(x: string, c: char, y: string)
    requires c != '`'
    ensures StartsWith(x + [c] + y, "```") <==> StartsWith(x, "```")
  {
    var s := x + [c] + y;
    ThreeBackquotes(s);
    ThreeBackquotes(x);
    assert s[|x|] == c && forall i :: 0 <= i < |x| ==> s[i] == x[i];
  }

  lemma NotSpaceKept(s: string, all: seq<Pattern>)
    requires PlainTable(all)
    ensures SpaceRun(StretchAll(s, all)) == |StretchAll(s, all)| <==> SpaceRun(s) == |s|
  {
    hide PlainTable, Fold, FoldHead, StretchAll;
    var l := Split(s);
    SplitProper(s);
    RewriteIsFold(l, all);
    HeadSpaceKept(l.head, l.tail == [], all);
    OnlySpace(l);
    OnlySpace(FoldLine(l, all));
  }

  /** A text of white space has no quote. */
  lemma OnlySpace(l: Line)
    requires Proper(l)
    ensures SpaceRun(Join(l)) == |Join(l)| <==> l.tail == [] && SpaceRun(l.head) == |l.head|
  {
    hide IsSpace;
    var s := Join(l);
    JoinDelimited(l.tail);
    if l.tail == [] {
      assert s == l.head;
    } else {
      assert s[|l.head|] == l.tail[0].quote;
      SpaceIsNoQuote(l.tail[0].quote);
    }
  }

  /** Rewriting a line neither makes a fence of it nor stops it from being one. */
  lemma {:induction false} FenceKept(s: string, all: seq<Pattern>)
    requires PlainTable(all)
    ensures IsFence(RewriteAll(s, all)) <==> IsFence(s)
    decreases |s|
  {
    hide RewriteAll, StretchAll, PlainTable, IsFence, Unbroken, IsTerminator, SpaceRun;
    var n := Stretch(s);
    RewriteFirst(s, all);
    FenceStays(s[..n], all);
    if n == |s| {
      assert s[..n] == s;
    } else {
      FenceKept(s[n + 1..], all);
      NotSpaceKept(s[..n], all);
      CutAt(s, n);
      FenceApart(s[..n], s[n], s[n + 1..]);
      FenceApart(StretchAll(s[..n], all), s[n], RewriteAll(s[n + 1..], all));
    }
  }

  lemma CutAt(s: string, n: nat)
    requires n < |s|
    ensures s == s[..n] + [s[n]] + s[n + 1..]
  {
  }
}
