/** `rescope-vendor`: what the rewrite of a whole file preserves, and its reverse mode. */
module VendorFile {
  import opened Text
  import opened Sorting
  import opened Packages
  import opened VendorRename
  import opened VendorRewrite
  import opened VendorStretches
  import opened VendorLines
  import opened VendorText

  // ----- rewrite -----

  /** Fence lines among the first k. */
  function Fences(lines: seq<string>, k: nat): nat
    requires k <= |lines|
  {
    if k == 0 then 0 else Fences(lines, k - 1) + if IsFence(lines[k - 1]) then 1 else 0
  }

  /** Outside Markdown every line is rewritten; in Markdown those inside fences and, under `docs/`,
      prose. Fence lines never are. */
  predicate Eligible(lines: seq<string>, k: nat, markdown: bool, prose: bool)
    requires k < |lines|
  {
    markdown ==> !IsFence(lines[k]) && (prose || Fences(lines, k) % 2 == 1)
  }

  function RewriteLines(lines: seq<string>, markdown: bool, prose: bool, all: seq<Pattern>): (r: seq<string>)
    ensures |r| == |lines|
    ensures forall k :: 0 <= k < |lines| ==>
            r[k] == if Eligible(lines, k, markdown, prose) then RewriteAll(lines[k], all) else lines[k]
  {
    seq(|lines|, k requires 0 <= k < |lines| => if Eligible(lines, k, markdown, prose) then RewriteAll(lines[k], all)
                                                else lines[k])
  }

  /** How many of the first n lines differ. */
  function Changed(before: seq<string>, after: seq<string>, n: nat): nat
    requires n <= |before| && n <= |after|
  {
    if n == 0 then 0 else Changed(before, after, n - 1) + if before[n - 1] == after[n - 1] then 0 else 1
  }

  ghost function FencesBefore(lines: seq<string>, k: nat): set<int>
    requires k <= |lines|
  {
    set i | 0 <= i < k && FenceLine(lines[i])
  }

  lemma {:induction false} FencesCount(lines: seq<string>, k: nat)
    requires k <= |lines|
    ensures Fences(lines, k) == |FencesBefore(lines, k)|
  {
    hide IsFence, FenceLine;
    if k == 0 {
      assert FencesBefore(lines, 0) == {};
    } else {
      FencesCount(lines, k - 1);
      FenceExact(lines[k - 1]);
      var before, now := FencesBefore(lines, k - 1), FencesBefore(lines, k);
      assert now == if FenceLine(lines[k - 1]) then before + {k - 1} else before;
    }
  }

  /** Line k is rewritten: outside Markdown every line is; in Markdown the lines that are no fences, behind
      an odd number of them or, under `docs/`, anywhere. */
  ghost predicate IsRewritten(lines: seq<string>, k: nat, markdown: bool, prose: bool)
    requires k < |lines|
  {
    markdown ==> !FenceLine(lines[k]) && (prose || |FencesBefore(lines, k)| % 2 == 1)
  }

  lemma EligibleExact(lines: seq<string>, k: nat, markdown: bool, prose: bool)
    requires k < |lines|
    ensures Eligible(lines, k, markdown, prose) <==> IsRewritten(lines, k, markdown, prose)
  {
    hide IsFence, FenceLine, FencesBefore, Fences;
    FenceExact(lines[k]);
    FencesCount(lines, k);
  }

  ghost function Differing(before: seq<string>, after: seq<string>, n: nat): set<int>
    requires n <= |before| && n <= |after|
  {
    set i | 0 <= i < n && before[i] != after[i]
  }

  lemma {:induction false} ChangedCount(before: seq<string>, after: seq<string>, n: nat)
    requires n <= |before| && n <= |after|
    ensures Changed(before, after, n) == |Differing(before, after, n)|
  {
    if n == 0 {
      assert Differing(before, after, 0) == {};
    } else {
      ChangedCount(before, after, n - 1);
      var less, now := Differing(before, after, n - 1), Differing(before, after, n);
      assert now == if before[n - 1] != after[n - 1] then less + {n - 1} else less;
    }
  }

  /** What a rewrite makes of the lines: the same number of them, each rewritten or kept. */
  ghost predicate RewrittenTo(lines: seq<string>, after: seq<string>, markdown: bool, prose: bool, all: seq<Pattern>) {
    && |after| == |lines|
    && forall k :: 0 <= k < |lines| ==>
         after[k] == if IsRewritten(lines, k, markdown, prose) then RewriteAll(lines[k], all) else lines[k]
  }

  lemma RewriteLinesExact(lines: seq<string>, markdown: bool, prose: bool, all: seq<Pattern>)
    ensures RewrittenTo(lines, RewriteLines(lines, markdown, prose, all), markdown, prose, all)
  {
    hide Eligible, IsRewritten, RewriteAll, RewriteLines;
    forall k | 0 <= k < |lines|
      ensures Eligible(lines, k, markdown, prose) <==> IsRewritten(lines, k, markdown, prose)
    {
      EligibleExact(lines, k, markdown, prose);
    }
  }

  method Rewrite(text: string, markdown: bool, prose: bool, all: seq<Pattern>) returns (after: string, count: nat)
    requires PlainTable(all)
    ensures Lines(after) == RewriteLines(Lines(text), markdown, prose, all)
    ensures RewrittenTo(Lines(text), Lines(after), markdown, prose, all)
    ensures count == |Differing(Lines(text), Lines(after), |Lines(text)|)|
    ensures count == 0 <==> after == text
  {
    hide PlainTable, Lines, Eligible, RewriteLines, Changed, Unlines, RewrittenTo, Differing;
    RewriteLinesExact(Lines(text), markdown, prose, all);
    ChangedCount(Lines(text), RewriteLines(Lines(text), markdown, prose, all), |Lines(text)|);
    var out;
    out, count := RewriteEach(Lines(text), markdown, prose, all);
    after := Unlines(out);
    RewrittenLines(Lines(text), markdown, prose, all);
    LinesOfUnlines(out);
    SameText(text, out, after);
  }

  method RewriteEach(lines: seq<string>, markdown: bool, prose: bool, all: seq<Pattern>)
    returns (out: seq<string>, count: nat)
    ensures out == RewriteLines(lines, markdown, prose, all)
    ensures count == Changed(lines, out, |lines|)
  {
    hide Eligible, IsFence, RewriteAll, RewriteLines;
    ghost var spec := RewriteLines(lines, markdown, prose, all);
    var insideFence := false;
    out := [];
    count := 0;
    for i := 0 to |lines|
      invariant insideFence <==> markdown && Fences(lines, i) % 2 == 1
      invariant out == spec[..i]
      invariant count == Changed(lines, spec, i)
    {
      var line := lines[i];
      var next := line;
      EligibleHere(lines, i, markdown, prose, insideFence);
      if markdown && IsFence(line) {
        insideFence := !insideFence;
      } else if !markdown || insideFence || prose {
        next := RewriteLine(line, all);
        if next != line { count := count + 1; }
      }
      assert spec[..i + 1] == spec[..i] + [spec[i]];
      out := out + [next];
    }
    assert spec[..|lines|] == spec;
  }

  lemma SameText(text: string, out: seq<string>, after: string)
    requires |out| == |Lines(text)| && out != [] && Lines(after) == out && after == Unlines(out)
    ensures Changed(Lines(text), out, |out|) == 0 <==> after == text
  {
    hide Lines, Unlines;
    var lines := Lines(text);
    UnlinesOfLines(text);
    ChangedNone(lines, out, |out|);
    assert lines[..|out|] == lines && out[..|out|] == out;
  }

  lemma EligibleHere(lines: seq<string>, i: nat, markdown: bool, prose: bool, inside: bool)
    requires i < |lines| && (inside <==> markdown && Fences(lines, i) % 2 == 1)
    ensures Eligible(lines, i, markdown, prose) <==>
            !(markdown && IsFence(lines[i])) && !(markdown && !inside && !prose)
  {
  }

  lemma {:induction false} ChangedNone(before: seq<string>, after: seq<string>, n: nat)
    requires n <= |before| && n <= |after|
    ensures Changed(before, after, n) == 0 <==> before[..n] == after[..n]
  {
    if n > 0 {
      ChangedNone(before, after, n - 1);
      assert before[..n] == before[..n - 1] + [before[n - 1]] && after[..n] == after[..n - 1] + [after[n - 1]];
    }
  }

  /** Rewriting never breaks a line in two. */
  lemma RewrittenLines(lines: seq<string>, markdown: bool, prose: bool, all: seq<Pattern>)
    requires PlainTable(all) && forall l :: l in lines ==> '\n' !in l
    ensures forall l :: l in RewriteLines(lines, markdown, prose, all) ==> '\n' !in l
  {
    forall k | 0 <= k < |lines| ensures '\n' !in RewriteAll(lines[k], all) {
      assert lines[k] in lines;
      RewriteWithout(lines[k], all, '\n');
    }
  }

  /** Line count, fences and eligible lines are the same after a rewrite. */
  lemma {:induction false} StructureKept(lines: seq<string>, markdown: bool, prose: bool, all: seq<Pattern>, k: nat)
    requires PlainTable(all) && k <= |lines|
    ensures var out := RewriteLines(lines, markdown, prose, all);
            && |out| == |lines|
            && Fences(out, k) == Fences(lines, k)
            && (k < |lines| ==> (IsFence(out[k]) <==> IsFence(lines[k])))
            && (k < |lines| ==> (Eligible(out, k, markdown, prose) <==> Eligible(lines, k, markdown, prose)))
  {
    hide PlainTable, IsFence;
    if k > 0 { StructureKept(lines, markdown, prose, all, k - 1); }
    if k < |lines| { FenceKept(lines[k], all); }
  }

  /** The reverse mode restores a file in which no rewritten line named a new package. */
  lemma FileReverses(lines: seq<string>, markdown: bool, prose: bool, all: seq<Pattern>, back: seq<Pattern>)
    requires PlainTable(all) && PlainTable(back) && Reverses(back, all)
    requires forall k :: 0 <= k < |lines| && Eligible(lines, k, markdown, prose) ==> NoScoped(lines[k], all)
    ensures RewriteLines(RewriteLines(lines, markdown, prose, all), markdown, prose, back) == lines
  {
    hide PlainTable, Eligible, NoScoped;
    var out := RewriteLines(lines, markdown, prose, all);
    var restored := RewriteLines(out, markdown, prose, back);
    forall k | 0 <= k < |lines| ensures restored[k] == lines[k] {
      StructureKept(lines, markdown, prose, all, k);
      if Eligible(lines, k, markdown, prose) { LineReverses(lines[k], all, back); }
    }
    assert restored == lines;
  }

  /** The check mode finds a residue exactly where an eligible line still names an old package. */
  lemma FileUnchanged(lines: seq<string>, markdown: bool, prose: bool, all: seq<Pattern>)
    requires PlainTable(all)
    ensures RewriteLines(lines, markdown, prose, all) == lines <==>
            forall k :: 0 <= k < |lines| && Eligible(lines, k, markdown, prose) ==> NoResidue(lines[k], all)
  {
    hide PlainTable, Eligible, NoResidue;
    var out := RewriteLines(lines, markdown, prose, all);
    forall k | 0 <= k < |lines| ensures RewriteAll(lines[k], all) == lines[k] <==> NoResidue(lines[k], all) {
      LineUnchanged(lines[k], all);
    }
    if forall k :: 0 <= k < |lines| && Eligible(lines, k, markdown, prose) ==> NoResidue(lines[k], all) {
      assert out == lines;
    }
  }

  /** Applying the codemod to a file again changes nothing if and only if in no eligible line two tokens
      of one name share a quote. Applying it a third time never changes anything. */
  lemma FileIdempotent(lines: seq<string>, markdown: bool, prose: bool, all: seq<Pattern>)
    requires PlainTable(all)
    ensures var once := RewriteLines(lines, markdown, prose, all);
            var twice := RewriteLines(once, markdown, prose, all);
            && (twice == once <==> forall k :: 0 <= k < |lines| && Eligible(lines, k, markdown, prose) ==>
               !SharesQuotes(lines[k], all))
            && RewriteLines(twice, markdown, prose, all) == twice
  {
    hide PlainTable, Eligible, SharesQuotes;
    var once := RewriteLines(lines, markdown, prose, all);
    var twice := RewriteLines(once, markdown, prose, all);
    var thrice := RewriteLines(twice, markdown, prose, all);
    forall k | 0 <= k < |lines|
      ensures thrice[k] == twice[k]
      ensures twice[k] == once[k] <==> !Eligible(lines, k, markdown, prose) || !SharesQuotes(lines[k], all)
    {
      StructureKept(lines, markdown, prose, all, k);
      StructureKept(once, markdown, prose, all, k);
      LineIdempotent(lines[k], all);
    }
    assert thrice == twice;
    if forall k :: 0 <= k < |lines| && Eligible(lines, k, markdown, prose) ==> !SharesQuotes(lines[k], all) {
      assert twice == once;
    }
  }

  // ----- the table -----

  datatype Rename = Rename(upstream: string, scoped: string)

  /** The renames that apply to a file, some upstream names being switched off for it. */
  function Applying(renames: seq<Rename>, skipped: set<string>): (r: seq<Rename>)
    ensures forall x :: x in r <==> x in renames && x.upstream !in skipped
  {
    if renames == [] then []
    else
      assert renames == renames[..|renames| - 1] + [renames[|renames| - 1]];
      var init := Applying(renames[..|renames| - 1], skipped);
      if renames[|renames| - 1].upstream in skipped then init else init + [renames[|renames| - 1]]
  }

  function Oriented(r: Rename, reverse: bool): Pattern {
    if reverse then Pattern(r.scoped, r.upstream) else Pattern(r.upstream, r.scoped)
  }

  function OrientedAll(renames: seq<Rename>, reverse: bool): (r: seq<Pattern>)
    ensures |r| == |renames| && forall i :: 0 <= i < |r| ==> r[i] == Oriented(renames[i], reverse)
  {
    seq(|renames|, i requires 0 <= i < |renames| => Oriented(renames[i], reverse))
  }

  function LongerFirst(a: Pattern, b: Pattern): int { |b.from| - |a.from| }

  function Patterns(renames: seq<Rename>, reverse: bool): seq<Pattern> {
    Sort(OrientedAll(renames, reverse), LongerFirst)
  }

  ghost predicate Turns(r: Rename, p: Pattern, reverse: bool) {
    && p.from == (if reverse then r.scoped else r.upstream)
    && p.to == (if reverse then r.upstream else r.scoped)
  }

  /** The table looks for the old names and puts in the new ones, or the other way round in reverse, longer
      names first. */
  lemma PatternsExact(renames: seq<Rename>, reverse: bool)
    ensures forall p :: p in Patterns(renames, reverse) <==> exists r :: r in renames && Turns(r, p, reverse)
    ensures |Patterns(renames, reverse)| == |renames|
    ensures var all := Patterns(renames, reverse); forall i, j :: 0 <= i < j < |all| ==> |all[i].from| >= |all[j].from|
  {
    var all, sorted := OrientedAll(renames, reverse), Patterns(renames, reverse);
    LongerFirstTotal();
    SortSorts(all, LongerFirst);
    SameElements(all, sorted);
    hide Patterns;
    forall p ensures p in all <==> exists r :: r in renames && Turns(r, p, reverse) {
      if p in all {
        var i :| 0 <= i < |all| && all[i] == p;
        assert renames[i] in renames && Turns(renames[i], p, reverse);
      }
      if r :| r in renames && Turns(r, p, reverse) {
        var i :| 0 <= i < |renames| && renames[i] == r;
        assert all[i] == p;
      }
    }
    forall i, j | 0 <= i < j < |sorted| ensures |sorted[i].from| >= |sorted[j].from| {
      assert LongerFirst(sorted[i], sorted[j]) <= 0;
    }
  }

  lemma LongerFirstTotal()
    ensures Total(LongerFirst)
  {
    forall a, b ensures Signs(LongerFirst, a, b) {}
    forall a, b, c ensures Chains(LongerFirst, a, b, c) {}
  }

  ghost predicate CleanNames(renames: seq<Rename>) {
    && (forall i :: 0 <= i < |renames| ==> Plain(renames[i].upstream) && Plain(renames[i].scoped))
    && Clean(OrientedAll(renames, false))
  }

  /** Clean, said of the elements instead of the positions. */
  ghost predicate Apart(all: seq<Pattern>) {
    forall r, q :: r in all && q in all ==>
      Unlike(r.from, q.to) && (r != q ==> Unlike(r.from, q.from) && Unlike(r.to, q.to))
  }

  lemma UnlikeSelf()
    ensures forall a :: !Unlike(a, a)
  {
  }

  lemma CleanIsApart(all: seq<Pattern>)
    ensures Clean(all) <==> Distinct(all) && Apart(all)
  {
    UnlikeSelf();
    hide Unlike;
    if Clean(all) {
      forall r, q | r in all && q in all
        ensures Unlike(r.from, q.to) && (r != q ==> Unlike(r.from, q.from) && Unlike(r.to, q.to))
      {
        var i :| 0 <= i < |all| && all[i] == r;
        var j :| 0 <= j < |all| && all[j] == q;
        if i > j {
          UnlikeSymmetric(r.from, q.from);
          UnlikeSymmetric(r.to, q.to);
        }
      }
    }
  }

  lemma CleanPermutes(all: seq<Pattern>, other: seq<Pattern>)
    requires Clean(all) && multiset(all) == multiset(other)
    ensures Clean(other)
  {
    SameElements(all, other);
    CleanIsApart(all);
    DistinctByCount(all);
    DistinctByCount(other);
    CleanIsApart(other);
  }

  lemma CleanBothWays(renames: seq<Rename>)
    requires Clean(OrientedAll(renames, false))
    ensures Clean(OrientedAll(renames, true))
  {
    var there, back := OrientedAll(renames, false), OrientedAll(renames, true);
    forall i, j | 0 <= i < |back| && 0 <= j < |back| ensures Unlike(back[i].from, back[j].to) {
      assert Unlike(there[j].from, there[i].to);
      UnlikeSymmetric(there[j].from, there[i].to);
    }
    forall i, j | 0 <= i < j < |back| ensures Unlike(back[i].from, back[j].from) && Unlike(back[i].to, back[j].to) {
      assert Unlike(there[i].from, there[j].from);
    }
  }

  lemma PatternsPlain(renames: seq<Rename>, reverse: bool)
    requires CleanNames(renames)
    ensures PlainTable(Patterns(renames, reverse))
  {
    var all := OrientedAll(renames, reverse);
    CleanBothWays(renames);
    CleanPermutes(all, Patterns(renames, reverse));
    SameElements(all, Patterns(renames, reverse));
    hide Plain;
    forall r | r in Patterns(renames, reverse) ensures Plain(r.from) && Plain(r.to) {
      var i :| 0 <= i < |all| && all[i] == r;
      assert Plain(renames[i].upstream);
    }
  }

  /** The forward and the reverse table are each other's reverse, although each is sorted by its own
      names. */
  lemma PatternsReverse(renames: seq<Rename>)
    requires CleanNames(renames)
    ensures PlainTable(Patterns(renames, false)) && PlainTable(Patterns(renames, true))
    ensures Reverses(Patterns(renames, true), Patterns(renames, false))
  {
    PatternsPlain(renames, false);
    PatternsPlain(renames, true);
    hide PlainTable, CleanNames;
    forall reverse: bool, r | r in Patterns(renames, reverse)
      ensures Pattern(r.to, r.from) in Patterns(renames, !reverse)
    {
      OtherWay(renames, reverse, r);
    }
    assert forall r :: r in Patterns(renames, false) ==> Pattern(r.to, r.from) in Patterns(renames, !false);
    assert forall r :: r in Patterns(renames, true) ==> Pattern(r.to, r.from) in Patterns(renames, !true);
  }

  lemma OtherWay(renames: seq<Rename>, reverse: bool, r: Pattern)
    requires r in Patterns(renames, reverse)
    ensures Pattern(r.to, r.from) in Patterns(renames, !reverse)
  {
    hide Sort;
    var there, back := OrientedAll(renames, reverse), OrientedAll(renames, !reverse);
    SameElements(there, Patterns(renames, reverse));
    SameElements(back, Patterns(renames, !reverse));
    var i :| 0 <= i < |there| && there[i] == r;
    assert back[i] == Pattern(r.to, r.from);
    assert back[i] in back;
  }

  /** Switching names off for a file leaves a clean table. */
  lemma {:induction false} ApplyingClean(renames: seq<Rename>, skipped: set<string>)
    requires CleanNames(renames)
    ensures CleanNames(Applying(renames, skipped))
  {
    if renames != [] {
      var n := |renames| - 1;
      var init := renames[..n];
      CleanInitNames(renames);
      ApplyingClean(init, skipped);
      var kept := Applying(init, skipped);
      if renames[n].upstream !in skipped { CleanAppends(renames, kept); }
    }
  }

  lemma CleanInitNames(renames: seq<Rename>)
    requires CleanNames(renames) && renames != []
    ensures CleanNames(renames[..|renames| - 1])
  {
    hide Plain, Unlike;
    var all, init := OrientedAll(renames, false), OrientedAll(renames[..|renames| - 1], false);
    assert forall i :: 0 <= i < |init| ==> init[i] == all[i];
  }

  lemma CleanAppends(renames: seq<Rename>, kept: seq<Rename>)
    requires CleanNames(renames) && renames != [] && CleanNames(kept)
    requires forall x :: x in kept ==> x in renames[..|renames| - 1]
    ensures CleanNames(kept + [renames[|renames| - 1]])
  {
    hide Plain, Unlike;
    var n := |renames| - 1;
    var all, oriented := OrientedAll(renames, false), OrientedAll(kept, false);
    var more := OrientedAll(kept + [renames[n]], false);
    forall i | 0 <= i < |kept| ensures exists j :: 0 <= j < n && all[j] == more[i] {
      assert kept[i] in kept && kept[i] in renames[..n];
      var j :| 0 <= j < n && renames[j] == kept[i];
      assert all[j] == more[i];
    }
    assert forall i :: 0 <= i < |oriented| ==> more[i] == oriented[i];
    assert more[|kept|] == all[n];
  }

  // ----- the codemod on a file -----

  /** `--apply` and then `--apply --reverse` restore every file that named no new package where the
      codemod looks, whatever names are switched off for it. */
  lemma CodemodReverses(lines: seq<string>, markdown: bool, prose: bool, renames: seq<Rename>, skipped: set<string>)
    requires CleanNames(renames)
    requires forall k :: 0 <= k < |lines| && Eligible(lines, k, markdown, prose) ==>
               NoScoped(lines[k], Patterns(Applying(renames, skipped), false))
    ensures var used := Applying(renames, skipped);
            RewriteLines(RewriteLines(lines, markdown, prose, Patterns(used, false)), markdown, prose,
              Patterns(used, true)) == lines
  {
    ApplyingClean(renames, skipped);
    var used := Applying(renames, skipped);
    PatternsReverse(used);
    hide CleanNames, PlainTable, Patterns, Applying, Eligible, NoScoped, RewriteLines, Reverses;
    FileReverses(lines, markdown, prose, Patterns(used, false), Patterns(used, true));
  }
}
