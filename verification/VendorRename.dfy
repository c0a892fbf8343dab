/** `rescope-vendor`: renaming quoted package names on one line, seen as the texts between its quotes. */
module VendorRename {
  import opened Basics
  import opened Text

  /** One rename: the package name looked for and the name put in its place. */
  datatype Pattern = Pattern(from: string, to: string)

  predicate IsQuote(c: char) { c == '\'' || c == '"' || c == '`' }

  /** The text is the name itself or a path below it. */
  predicate Names(text: string, name: string) {
    StartsWith(text, name) &&
    (|text| == |name| || (text[|name|] == '/' && forall i :: |name| <= i < |text| ==> !IsSpace(text[i])))
  }

  /** Neither name is the other one or a path prefix of it. */
  predicate Unlike(a: string, b: string) {
    a != b && !StartsWith(a, b + "/") && !StartsWith(b, a + "/")
  }

  lemma LongerName(text: string, a: string, b: string)
    ensures Names(text, a) && StartsWith(text, b) && |a| < |b| ==> StartsWith(b, a + "/")
  {
    if Names(text, a) && StartsWith(text, b) && |a| < |b| {
      assert b[..|a|] == text[..|b|][..|a|] == a;
      assert b[|a|] == text[|a|];
    }
  }

  lemma UnlikeNames(text: string, a: string, b: string)
    requires Unlike(a, b) && Names(text, a)
    ensures !Names(text, b)
  {
    LongerName(text, a, b);
    LongerName(text, b, a);
  }

  // ----- one name -----

  /** A quote and the text after it up to the next quote. */
  datatype Piece = Piece(quote: char, text: string)

  /** The text of piece k stands between equal quotes and is the name or a path below it. */
  predicate TokenAt(line: seq<Piece>, k: int, name: string) {
    0 <= k && k + 1 < |line| && line[k].quote == line[k + 1].quote && Names(line[k].text, name)
  }

  function Renamed(p: Piece, r: Pattern): Piece
    requires Names(p.text, r.from)
  {
    Piece(p.quote, r.to + p.text[|r.from|..])
  }

  /** One global replacement from left to right: a match uses up both of its quotes. */
  function Pass(line: seq<Piece>, r: Pattern): (t: seq<Piece>)
    ensures |t| == |line|
  {
    if |line| < 2 then line
    else if TokenAt(line, 0, r.from) then [Renamed(line[0], r), line[1]] + Pass(line[2..], r)
    else [line[0]] + Pass(line[1..], r)
  }

  /** A token is replaced unless the token right before it is, which has used up the common quote. */
  predicate Fires(line: seq<Piece>, k: int, name: string)
    decreases k
  {
    TokenAt(line, k, name) && !Fires(line, k - 1, name)
  }

  lemma {:induction false} FiresShift(line: seq<Piece>, n: nat, k: nat, name: string)
    requires n <= |line| && (n > 0 ==> !Fires(line, n - 1, name))
    ensures Fires(line[n..], k, name) <==> Fires(line, n + k, name)
    decreases k
  {
    assert TokenAt(line[n..], k, name) <==> TokenAt(line, n + k, name);
    if k > 0 { FiresShift(line, n, k - 1, name); }
  }

  /** A replacement pass changes exactly the tokens that fire. */
  lemma {:induction false} PassExact(line: seq<Piece>, r: Pattern, k: nat)
    requires k < |line|
    ensures Pass(line, r)[k] == if Fires(line, k, r.from) then Renamed(line[k], r) else line[k]
    decreases |line|
  {
    if |line| >= 2 {
      assert !Fires(line, -1, r.from);
      if TokenAt(line, 0, r.from) {
        assert Fires(line, 0, r.from) && !Fires(line, 1, r.from);
        if k >= 2 {
          PassExact(line[2..], r, k - 2);
          FiresShift(line, 2, k - 2, r.from);
        }
      } else if k >= 1 {
        PassExact(line[1..], r, k - 1);
        FiresShift(line, 1, k - 1, r.from);
      }
    }
  }

  lemma RenamedNames(p: Piece, r: Pattern)
    requires Names(p.text, r.from)
    ensures Names(Renamed(p, r).text, r.to)
    ensures Renamed(Renamed(p, r), Pattern(r.to, r.from)) == p
  {
    var t := Renamed(p, r).text;
    assert t[..|r.to|] == r.to && t[|r.to|..] == p.text[|r.from|..];
    forall i | |r.to| <= i < |t| && |p.text| > |r.from| ensures !IsSpace(t[i]) {
      assert t[i] == p.text[|r.from| + (i - |r.to|)];
    }
    assert p.text == r.from + p.text[|r.from|..];
  }

  /** The tokens of another name stay where they are. */
  lemma OtherTokens(line: seq<Piece>, r: Pattern, name: string, k: int)
    requires Unlike(r.from, name) && Unlike(r.to, name)
    ensures TokenAt(Pass(line, r), k, name) <==> TokenAt(line, k, name)
  {
    if 0 <= k && k + 1 < |line| {
      PassExact(line, r, k);
      PassExact(line, r, k + 1);
      if Fires(line, k, r.from) {
        RenamedNames(line[k], r);
        UnlikeNames(line[k].text, r.from, name);
        UnlikeNames(Renamed(line[k], r).text, r.to, name);
      }
    }
  }

  /** What a pass leaves of the name's own tokens: those that did not fire, and only new names appear. */
  lemma OwnTokens(line: seq<Piece>, r: Pattern, k: int)
    requires Unlike(r.from, r.to)
    ensures TokenAt(Pass(line, r), k, r.from) <==> TokenAt(line, k, r.from) && !Fires(line, k, r.from)
    ensures TokenAt(Pass(line, r), k, r.to) <==> TokenAt(line, k, r.to) || Fires(line, k, r.from)
  {
    if 0 <= k && k + 1 < |line| {
      PassExact(line, r, k);
      PassExact(line, r, k + 1);
      if Fires(line, k, r.from) {
        RenamedNames(line[k], r);
        UnlikeNames(Renamed(line[k], r).text, r.to, r.from);
      }
    }
  }

  function Tokens(line: seq<Piece>, name: string): set<int> {
    set k | 0 <= k < |line| && TokenAt(line, k, name)
  }

  /** Every pass that changes the line leaves strictly fewer tokens of the old name. */
  lemma PassDecreases(line: seq<Piece>, r: Pattern)
    requires Unlike(r.from, r.to)
    ensures Tokens(Pass(line, r), r.from) <= Tokens(line, r.from)
    ensures Pass(line, r) != line <==> Tokens(Pass(line, r), r.from) < Tokens(line, r.from)
    ensures Pass(line, r) != line <==> Tokens(line, r.from) != {}
  {
    forall k ensures TokenAt(Pass(line, r), k, r.from) <==> TokenAt(line, k, r.from) && !Fires(line, k, r.from) {
      OwnTokens(line, r, k);
    }
    if Pass(line, r) != line {
      var k :| 0 <= k < |line| && Pass(line, r)[k] != line[k];
      PassExact(line, r, k);
      assert k in Tokens(line, r.from) && k !in Tokens(Pass(line, r), r.from);
    } else {
      NoTokens(line, r);
    }
  }

  lemma NoTokens(line: seq<Piece>, r: Pattern)
    requires Unlike(r.from, r.to)
    ensures Pass(line, r) == line <==> forall k :: !TokenAt(line, k, r.from)
  {
    if Pass(line, r) == line {
      forall k ensures !TokenAt(line, k, r.from) {
        OwnTokens(line, r, k);
        OwnTokens(line, r, k - 1);
      }
    } else {
      var k :| 0 <= k < |line| && Pass(line, r)[k] != line[k];
      PassExact(line, r, k);
    }
  }

  /** Two tokens of one name in a row share a quote. */
  ghost predicate Sharing(line: seq<Piece>, name: string) {
    exists k :: TokenAt(line, k, name) && TokenAt(line, k + 1, name)
  }

  /** Repeating a pass changes nothing if and only if no two tokens of the name share a quote; and the
      third pass never changes anything. */
  lemma PassIdempotent(line: seq<Piece>, r: Pattern)
    requires Unlike(r.from, r.to)
    ensures Pass(Pass(line, r), r) == Pass(line, r) <==> !Sharing(line, r.from)
    ensures Pass(Pass(Pass(line, r), r), r) == Pass(Pass(line, r), r)
    ensures forall k :: !TokenAt(Pass(Pass(line, r), r), k, r.from)
  {
    var once := Pass(line, r);
    forall k ensures TokenAt(once, k, r.from) <==> TokenAt(line, k, r.from) && !Fires(line, k, r.from) {
      OwnTokens(line, r, k);
    }
    NoTokens(once, r);
    LeftOver(line, once, r.from);
    hide Sharing, Pass;
    forall k ensures !TokenAt(Pass(once, r), k, r.from) {
      OwnTokens(once, r, k);
      assert !TokenAt(once, k - 1, r.from) || !TokenAt(once, k, r.from);
    }
    NoTokens(Pass(once, r), r);
  }

  // ----- all names -----

  /** No name of the table is another one or a path prefix of another one. */
  ghost predicate Clean(all: seq<Pattern>) {
    && (forall i, j :: 0 <= i < |all| && 0 <= j < |all| ==> Unlike(all[i].from, all[j].to))
    && (forall i, j :: 0 <= i < j < |all| ==> Unlike(all[i].from, all[j].from) && Unlike(all[i].to, all[j].to))
  }

  function Fold(line: seq<Piece>, all: seq<Pattern>): (t: seq<Piece>)
    ensures |t| == |line|
  {
    if all == [] then line else Pass(Fold(line, all[..|all| - 1]), all[|all| - 1])
  }

  lemma {:induction false} FoldKeeps(line: seq<Piece>, all: seq<Pattern>, name: string, k: int)
    requires forall r :: r in all ==> Unlike(r.from, name) && Unlike(r.to, name)
    ensures TokenAt(Fold(line, all), k, name) <==> TokenAt(line, k, name)
    decreases |all|
  {
    if all != [] {
      var n := |all| - 1;
      FoldKeeps(line, all[..n], name, k);
      OtherTokens(Fold(line, all[..n]), all[n], name, k);
    }
  }

  lemma {:induction false} SameFires(a: seq<Piece>, b: seq<Piece>, name: string, k: int)
    requires forall j :: TokenAt(a, j, name) <==> TokenAt(b, j, name)
    ensures Fires(a, k, name) <==> Fires(b, k, name)
    decreases k
  {
    if k >= 0 { SameFires(a, b, name, k - 1); }
  }

  lemma CleanInit(all: seq<Pattern>)
    requires Clean(all) && all != []
    ensures Clean(all[..|all| - 1])
    ensures forall r :: r in all[..|all| - 1] ==>
              Unlike(r.from, all[|all| - 1].from) && Unlike(r.to, all[|all| - 1].from)
              && Unlike(r.from, all[|all| - 1].to) && Unlike(r.to, all[|all| - 1].to)
  {
  }

  lemma FoldFires(line: seq<Piece>, all: seq<Pattern>, name: string, k: int)
    requires forall r :: r in all ==> Unlike(r.from, name) && Unlike(r.to, name)
    ensures Fires(Fold(line, all), k, name) <==> Fires(line, k, name)
  {
    forall j ensures TokenAt(Fold(line, all), j, name) <==> TokenAt(line, j, name) { FoldKeeps(line, all, name, j); }
    SameFires(Fold(line, all), line, name, k);
  }

  /** The passes for different names do not disturb each other, in whatever order they run: a piece is
      renamed by the one pattern that fires on it in the original line. */
  lemma FoldExact(line: seq<Piece>, all: seq<Pattern>, k: nat)
    requires Clean(all) && k < |line|
    ensures forall r :: r in all && Fires(line, k, r.from) ==> Fold(line, all)[k] == Renamed(line[k], r)
    ensures (forall r :: r in all ==> !Fires(line, k, r.from)) ==> Fold(line, all)[k] == line[k]
  {
    hide Clean, Fold;
    forall r | r in all && Fires(line, k, r.from) ensures Fold(line, all)[k] == Renamed(line[k], r) {
      FoldRenames(line, all, k, r);
    }
    if forall r :: r in all ==> !Fires(line, k, r.from) { FoldUntouched(line, all, k); }
  }

  lemma LastOf(all: seq<Pattern>)
    requires all != []
    ensures all[|all| - 1] in all && forall r :: r in all <==> r in all[..|all| - 1] || r == all[|all| - 1]
  {
    assert all == all[..|all| - 1] + [all[|all| - 1]];
  }

  /** The last pass acts as it would on the original line. */
  lemma LastPass(line: seq<Piece>, all: seq<Pattern>, k: nat)
    requires Clean(all) && all != [] && k < |line|
    ensures var last, before := all[|all| - 1], Fold(line, all[..|all| - 1]);
            && (!Fires(line, k, last.from) ==> Fold(line, all)[k] == before[k])
            && (Fires(line, k, last.from) && before[k] == line[k] ==> Fold(line, all)[k] == Renamed(line[k], last))
  {
    CleanInit(all);
    hide Clean, Unlike, Pass, Fires;
    var last, before := all[|all| - 1], Fold(line, all[..|all| - 1]);
    FoldFires(line, all[..|all| - 1], last.from, k);
    PassExact(before, last, k);
    FiresNames(line, k, last.from);
  }

  lemma {:induction false} FoldUntouched(line: seq<Piece>, all: seq<Pattern>, k: nat)
    requires Clean(all) && k < |line| && forall r :: r in all ==> !Fires(line, k, r.from)
    ensures Fold(line, all)[k] == line[k]
    decreases |all|
  {
    if all != [] {
      CleanInit(all);
      LastOf(all);
      LastPass(line, all, k);
      hide Clean, Fires, Fold;
      FoldUntouched(line, all[..|all| - 1], k);
    }
  }

  lemma {:induction false} FoldRenames(line: seq<Piece>, all: seq<Pattern>, k: nat, r: Pattern)
    requires Clean(all) && k < |line| && r in all && Fires(line, k, r.from)
    ensures Fold(line, all)[k] == Renamed(line[k], r)
    decreases |all|
  {
    var n := |all| - 1;
    CleanInit(all);
    LastOf(all);
    LastPass(line, all, k);
    hide Clean, Fold, Fires, Unlike;
    if r in all[..n] {
      FoldRenames(line, all[..n], k, r);
      if Fires(line, k, all[n].from) { OneFires(line, k, r.from, all[n].from); }
    } else {
      forall q | q in all[..n] ensures !Fires(line, k, q.from) { OneFires(line, k, q.from, all[n].from); }
      FoldUntouched(line, all[..n], k);
    }
  }

  lemma FiresNames(line: seq<Piece>, k: nat, name: string)
    ensures Fires(line, k, name) ==> k < |line| && Names(line[k].text, name)
  {
  }

  lemma OneFires(line: seq<Piece>, k: nat, a: string, b: string)
    requires Unlike(a, b) && Fires(line, k, b)
    ensures !Fires(line, k, a)
  {
    if Names(line[k].text, a) { UnlikeNames(line[k].text, a, b); }
  }

  /** Only new names appear and only fired tokens go. */
  lemma {:induction false} FoldTokens(line: seq<Piece>, all: seq<Pattern>, r: Pattern, k: int)
    requires Clean(all) && r in all
    ensures TokenAt(Fold(line, all), k, r.from) <==> TokenAt(line, k, r.from) && !Fires(line, k, r.from)
    ensures TokenAt(Fold(line, all), k, r.to) <==> TokenAt(line, k, r.to) || Fires(line, k, r.from)
    decreases |all|
  {
    var n := |all| - 1;
    var last := all[n];
    var before := Fold(line, all[..n]);
    CleanInit(all);
    assert all == all[..n] + [last];
    if r in all[..n] {
      FoldTokens(line, all[..n], r, k);
      assert Unlike(r.from, last.from);
      UnlikeSymmetric(r.from, last.from);
      UnlikeSymmetric(r.to, last.to);
      UnlikeSymmetric(r.from, last.to);
      UnlikeSymmetric(r.to, last.from);
      OtherTokens(before, last, r.from, k);
      OtherTokens(before, last, r.to, k);
    } else {
      FoldKeeps(line, all[..n], last.from, k);
      FoldKeeps(line, all[..n], last.to, k);
      FoldFires(line, all[..n], last.from, k);
      OwnTokens(before, last, k);
    }
  }

  lemma UnlikeSymmetric(a: string, b: string)
    ensures Unlike(a, b) <==> Unlike(b, a)
  {
  }

  /** A whole rewrite is idempotent if and only if no two tokens of one name share a quote, and a third
      one never changes anything. */
  lemma FoldIdempotent(line: seq<Piece>, all: seq<Pattern>)
    requires Clean(all)
    ensures Fold(Fold(line, all), all) == Fold(line, all) <==> forall r :: r in all ==> !Sharing(line, r.from)
    ensures Fold(Fold(Fold(line, all), all), all) == Fold(Fold(line, all), all)
  {
    var once := Fold(line, all);
    forall r, k | r in all ensures TokenAt(once, k, r.from) <==> TokenAt(line, k, r.from) && !Fires(line, k, r.from) {
      FoldTokens(line, all, r, k);
    }
    FoldFixed(once, all);
    forall r | r in all ensures (forall k :: !TokenAt(once, k, r.from)) <==> !Sharing(line, r.from) {
      LeftOver(line, once, r.from);
    }
    forall r, k | r in all ensures !TokenAt(Fold(once, all), k, r.from) {
      FoldTokens(once, all, r, k);
      assert Fires(line, k - 1, r.from) <==> TokenAt(line, k - 1, r.from) && !TokenAt(once, k - 1, r.from);
    }
    FoldFixed(Fold(once, all), all);
  }

  lemma LeftOver(line: seq<Piece>, once: seq<Piece>, name: string)
    requires forall k :: TokenAt(once, k, name) <==> TokenAt(line, k, name) && !Fires(line, k, name)
    ensures (forall k :: !TokenAt(once, k, name)) <==> !Sharing(line, name)
  {
    if Sharing(line, name) {
      var k :| TokenAt(line, k, name) && TokenAt(line, k + 1, name);
      assert TokenAt(once, k, name) || TokenAt(once, k + 1, name);
    } else {
      forall k ensures !TokenAt(once, k, name) {
        assert Fires(line, k - 1, name) ==> TokenAt(line, k - 1, name);
        assert TokenAt(line, k - 1, name) ==> !TokenAt(line, k - 1 + 1, name);
      }
    }
  }

  /** A line is left alone exactly when no name of the table has a token in it. */
  lemma FoldFixed(line: seq<Piece>, all: seq<Pattern>)
    requires Clean(all)
    ensures Fold(line, all) == line <==> forall r, k :: r in all ==> !TokenAt(line, k, r.from)
  {
    if Fold(line, all) == line {
      forall r, k | r in all ensures !TokenAt(line, k, r.from) {
        FirstToken(line, all, r, k);
      }
    } else {
      var k :| 0 <= k < |line| && Fold(line, all)[k] != line[k];
      FoldExact(line, all, k);
    }
  }

  lemma FirstToken(line: seq<Piece>, all: seq<Pattern>, r: Pattern, k: int)
    requires Clean(all) && r in all && Fold(line, all) == line
    ensures !TokenAt(line, k, r.from)
  {
    FoldTokens(line, all, r, k);
    FoldTokens(line, all, r, k - 1);
  }

  /** The reverse table, in any order. */
  ghost predicate Reverses(back: seq<Pattern>, all: seq<Pattern>) {
    && (forall r :: r in all ==> Pattern(r.to, r.from) in back)
    && (forall r :: r in back ==> Pattern(r.to, r.from) in all)
  }

  /** The reverse mode undoes the rewrite on every line without a token of a new name, also where
      tokens share quotes. */
  lemma FoldReverses(line: seq<Piece>, all: seq<Pattern>, back: seq<Pattern>)
    requires Clean(all) && Clean(back) && Reverses(back, all)
    requires forall r, k :: r in all ==> !TokenAt(line, k, r.to)
    ensures Fold(Fold(line, all), back) == line
  {
    var there := Fold(line, all);
    forall k | 0 <= k < |line| ensures Fold(there, back)[k] == line[k] {
      FoldExact(line, all, k);
      FoldExact(there, back, k);
      forall r, j | r in all ensures TokenAt(there, j, r.to) <==> Fires(line, j, r.from) {
        FoldTokens(line, all, r, j);
      }
      if r :| r in all && Fires(line, k, r.from) {
        assert Fires(there, k, r.to);
        assert Pattern(r.to, r.from) in back;
        RenamedNames(line[k], r);
      } else {
        forall b | b in back ensures !Fires(there, k, b.from) {
          assert Pattern(b.to, b.from) in all;
        }
      }
    }
  }
}
