/** `rescope-vendor`: the state of one exact edit in the text it targets, in both directions. */
module VendorEdits {

  datatype State = Pending | Applied | Invalid

  predicate OccursAt(text: string, part: string, i: nat) {
    i + |part| <= |text| && text[i..i + |part|] == part
  }

  /** String.prototype.includes. */
  predicate Includes(text: string, part: string) {
    exists i: nat :: i <= |text| && OccursAt(text, part, i)
  }

  /** Occurrences from left to right, without overlap. */
  function Occurrences(text: string, part: string): nat
    requires part != ""
    decreases |text|
  {
    if |text| < |part| then 0
    else if OccursAt(text, part, 0) then 1 + Occurrences(text[|part|..], part)
    else Occurrences(text[1..], part)
  }

  /** `text.split(part).length - 1`; splitting at the empty text gives the single characters. */
  function Count(text: string, part: string): int {
    if part == "" then |text| - 1 else Occurrences(text, part)
  }

  function ExactEditState(text: string, find: string, replace: string, wanted: int): State {
    var hits, landed := Count(text, find), Count(text, replace);
    if Includes(replace, find) then
      if landed == wanted then Applied
      else if landed == 0 && hits == wanted then Pending else Invalid
    else if Includes(find, replace) then
      if hits == 0 then (if landed == wanted then Applied else Invalid)
      else if hits == wanted then Pending else Invalid
    else if hits == 0 && landed == wanted then Applied
    else if hits == wanted && landed == 0 then Pending else Invalid
  }

  /** Texts that include each other are equal. */
  lemma IncludesBoth(a: string, b: string)
    requires Includes(a, b) && Includes(b, a)
    ensures a == b
  {
    var i: nat :| i <= |a| && OccursAt(a, b, i);
    var j: nat :| j <= |b| && OccursAt(b, a, j);
    assert a[0..|a|] == a && b[0..|b|] == b;
  }

  /** A text has the part exactly if it has an occurrence to count. */
  lemma {:induction false} OccurrencesFound(text: string, part: string)
    requires part != ""
    ensures Occurrences(text, part) > 0 <==> Includes(text, part)
    decreases |text|
  {
    if |text| >= |part| {
      var rest := text[1..];
      if OccursAt(text, part, 0) {
        assert Includes(text, part);
      } else {
        OccurrencesFound(rest, part);
        if Includes(text, part) {
          var i: nat :| i <= |text| && OccursAt(text, part, i);
          OccursShift(text, part, i - 1);
        }
        if Includes(rest, part) {
          var i: nat :| i <= |rest| && OccursAt(rest, part, i);
          OccursShift(text, part, i);
        }
      }
    }
  }

  /** Whatever is applied in one direction is pending in the other, and only that: reversing starts
      exactly where applying ended, insertions and deletions included. */
  lemma ReverseDual(text: string, find: string, replace: string, wanted: int)
    requires wanted > 0 && find != replace
    ensures ExactEditState(text, find, replace, wanted) == Applied <==>
            ExactEditState(text, replace, find, wanted) == Pending
    ensures ExactEditState(text, find, replace, wanted) == Pending <==>
            ExactEditState(text, replace, find, wanted) == Applied
  {
    if Includes(find, replace) && Includes(replace, find) { IncludesBoth(find, replace); }
  }

  /** An edit that counts as applied has its new text, and one that is pending has its old text. */
  lemma StateMeansText(text: string, find: string, replace: string, wanted: int)
    requires wanted > 0 && find != "" && replace != ""
    ensures ExactEditState(text, find, replace, wanted) == Applied ==> Includes(text, replace)
    ensures ExactEditState(text, find, replace, wanted) == Pending ==>
            Includes(text, find) && (!Includes(find, replace) ==> !Includes(text, replace))
  {
    OccurrencesFound(text, find);
    OccurrencesFound(text, replace);
    if Includes(find, replace) && Includes(replace, find) { IncludesBoth(find, replace); }
  }

  // ----- applying an edit -----

  /** `text.split(find).join(replace)`. */
  function ReplaceAll(text: string, find: string, replace: string): string
    requires find != ""
    decreases |text|
  {
    if |text| < |find| then text
    else if OccursAt(text, find, 0) then replace + ReplaceAll(text[|find|..], find, replace)
    else [text[0]] + ReplaceAll(text[1..], find, replace)
  }

  lemma OccursFirst(part: string, s: string)
    requires part != ""
    ensures OccursAt(part + s, part, 0) && (part + s)[|part|..] == s
    ensures Occurrences(part + s, part) == 1 + Occurrences(s, part)
  {
    assert (part + s)[0..|part|] == part;
  }

  /** Dropping at most as many characters as the part has loses at most one occurrence. */
  lemma {:induction false} DropLosesOne(s: string, part: string, k: nat)
    requires part != "" && k <= |part| && k <= |s|
    ensures Occurrences(s, part) <= 1 + Occurrences(s[k..], part)
    decreases |s|, 0
  {
    if k == 0 {
      assert s[0..] == s;
    } else if |s| >= |part| {
      if OccursAt(s, part, 0) {
        assert s[k..][|part| - k..] == s[|part|..];
        DropNeverGains(s[k..], part, |part| - k);
      } else {
        DropLosesOne(s[1..], part, k - 1);
        assert s[1..][k - 1..] == s[k..];
      }
    }
  }

  /** Counting from left to right misses nothing: dropping a prefix never gains occurrences. */
  lemma {:induction false} DropNeverGains(s: string, part: string, k: nat)
    requires part != "" && k <= |s|
    ensures Occurrences(s[k..], part) <= Occurrences(s, part)
    decreases |s|, 1
  {
    if k == 0 {
      assert s[0..] == s;
    } else if |s| >= |part| {
      if !OccursAt(s, part, 0) {
        DropNeverGains(s[1..], part, k - 1);
        assert s[1..][k - 1..] == s[k..];
      } else if k >= |part| {
        DropNeverGains(s[|part|..], part, k - |part|);
        assert s[|part|..][k - |part|..] == s[k..];
      } else {
        DropLosesOne(s[k..], part, |part| - k);
        assert s[k..][|part| - k..] == s[|part|..];
      }
    }
  }

  /** Every occurrence replaced is an occurrence of the new text afterwards; more may have formed. */
  lemma {:induction false} ReplacedLands(text: string, find: string, replace: string)
    requires find != "" && replace != ""
    ensures Occurrences(ReplaceAll(text, find, replace), replace) >= Occurrences(text, find)
    decreases |text|
  {
    if |text| >= |find| {
      if OccursAt(text, find, 0) {
        var rest := ReplaceAll(text[|find|..], find, replace);
        ReplacedLands(text[|find|..], find, replace);
        OccursFirst(replace, rest);
      } else {
        var rest := ReplaceAll(text[1..], find, replace);
        ReplacedLands(text[1..], find, replace);
        assert ([text[0]] + rest)[1..] == rest;
        DropNeverGains([text[0]] + rest, replace, 1);
      }
    }
  }

  /** An edit that was pending and has been applied is not pending again, unless it only deletes: an
      insertion or a replacement is never made twice. */
  lemma NeverAppliedTwice(text: string, find: string, replace: string, wanted: int)
    requires wanted > 0 && find != "" && replace != "" && find != replace
    requires ExactEditState(text, find, replace, wanted) == Pending
    ensures var after := ReplaceAll(text, find, replace);
            ExactEditState(after, find, replace, wanted) == Pending ==> Includes(find, replace)
  {
    ReplacedLands(text, find, replace);
    if Includes(find, replace) && Includes(replace, find) { IncludesBoth(find, replace); }
  }

  // ----- occurrences, character by character -----

  lemma OccursShift(text: string, part: string, i: nat)
    requires text != ""
    ensures OccursAt(text, part, i + 1) <==> OccursAt(text[1..], part, i)
  {
    if i + 1 + |part| <= |text| { assert text[1..][i..i + |part|] == text[i + 1..i + 1 + |part|]; }
  }

  lemma OccursChars(text: string, part: string, i: nat)
    ensures OccursAt(text, part, i) <==>
            i + |part| <= |text| && forall k :: i <= k < i + |part| ==> text[k] == part[k - i]
  {
    if i + |part| <= |text| {
      var s := text[i..i + |part|];
      assert forall k :: i <= k < i + |part| ==> text[k] == s[k - i];
    }
  }

  // ----- texts held apart by a run of one character -----

  function Run(c: char, n: nat): (s: string)
    ensures |s| == n && forall i :: 0 <= i < n ==> s[i] == c
  {
    if n == 0 then "" else [c] + Run(c, n - 1)
  }

  /** The character neither begins nor ends the part, and the run is as long as the part. */
  predicate Separates(c: char, n: nat, part: string) {
    part != "" && n >= |part| && c != part[0] && c != part[|part| - 1]
  }

  lemma {:induction false} RunFirst(c: char, n: nat, m: nat, y: string, find: string, replace: string)
    requires find != "" && c != find[0] && m <= n
    ensures Occurrences(Run(c, m) + y, find) == Occurrences(y, find)
    ensures ReplaceAll(Run(c, m) + y, find, replace) == Run(c, m) + ReplaceAll(y, find, replace)
    decreases m
  {
    var s := Run(c, m) + y;
    if m == 0 {
      assert s == y;
    } else {
      assert s == [c] + (Run(c, m - 1) + y);
      RunFirst(c, n, m - 1, y, find, replace);
      NotFirst(s, find, replace);
    }
  }

  /** A text that does not begin with the part: the first character is kept. */
  lemma NotFirst(s: string, find: string, replace: string)
    requires find != "" && s != "" && !OccursAt(s, find, 0)
    ensures Occurrences(s, find) == Occurrences(s[1..], find)
    ensures ReplaceAll(s, find, replace) == [s[0]] + ReplaceAll(s[1..], find, replace)
  {
    if |s| < |find| { assert s == [s[0]] + s[1..]; }
  }

  /** What stands before the middle and what stands after it do not affect each other. */
  ghost predicate Held(x: string, middle: string, y: string, find: string, replace: string)
    requires find != ""
  {
    var s := x + middle + y;
    && Occurrences(s, find) == Occurrences(x, find) + Occurrences(y, find)
    && ReplaceAll(s, find, replace) == ReplaceAll(x, find, replace) + middle + ReplaceAll(y, find, replace)
  }

  lemma HeldMatch(x: string, middle: string, y: string, find: string, replace: string)
    requires find != "" && OccursAt(x, find, 0) && Held(x[|find|..], middle, y, find, replace)
    ensures Held(x, middle, y, find, replace)
  {
    var rest := x[|find|..];
    StartsOn(x, middle + y, find, replace);
    StartsOn(x, "", find, replace);
    hide Occurrences, ReplaceAll, OccursAt;
    AddNothing(x);
    AddNothing(rest);
    Associate(x, middle, y);
    Associate(rest, middle, y);
    Regroup(replace, ReplaceAll(rest, find, replace), middle, ReplaceAll(y, find, replace));
  }

  lemma AddNothing(a: string)
    ensures a + "" == a
  {
  }

  lemma Associate(a: string, b: string, c: string)
    ensures a + (b + c) == a + b + c
  {
  }

  lemma HeldSkip(x: string, middle: string, y: string, find: string, replace: string)
    requires find != "" && x != "" && !OccursAt(x, find, 0) && !OccursAt(x + middle + y, find, 0)
    requires Held(x[1..], middle, y, find, replace)
    ensures Held(x, middle, y, find, replace)
  {
    var s := x + middle + y;
    NotFirst(s, find, replace);
    NotFirst(x, find, replace);
    hide Occurrences, ReplaceAll, OccursAt;
    SkipOne(x, middle, y);
    Regroup([x[0]], ReplaceAll(x[1..], find, replace), middle, ReplaceAll(y, find, replace));
  }

  lemma SkipOne(x: string, middle: string, y: string)
    requires x != ""
    ensures (x + middle + y)[1..] == x[1..] + middle + y && (x + middle + y)[0] == x[0]
  {
  }

  lemma {:induction false} HeldApart(x: string, c: char, n: nat, y: string, find: string, replace: string)
    requires Separates(c, n, find)
    ensures Held(x, Run(c, n), y, find, replace)
    decreases |x|
  {
    SeparatesFirst(c, n, find);
    hide OccursAt, Run, Separates, Held;
    if x == "" {
      HeldNothing(c, n, y, find, replace);
    } else if OccursAt(x, find, 0) {
      OccursFits(x, find, 0);
      HeldApart(x[|find|..], c, n, y, find, replace);
      HeldMatch(x, Run(c, n), y, find, replace);
    } else {
      NotAtStart(x, c, n, y, find);
      HeldApart(x[1..], c, n, y, find, replace);
      HeldSkip(x, Run(c, n), y, find, replace);
    }
  }

  lemma HeldNothing(c: char, n: nat, y: string, find: string, replace: string)
    requires find != "" && c != find[0]
    ensures Held("", Run(c, n), y, find, replace)
  {
    RunFirst(c, n, n, y, find, replace);
    hide Run, Occurrences, ReplaceAll, OccursAt;
    AfterNothing(Run(c, n), y);
    AfterNothing(Run(c, n), ReplaceAll(y, find, replace));
    NoOccurrence(find, replace);
  }

  lemma AfterNothing(a: string, b: string)
    ensures "" + a + b == a + b
  {
  }

  lemma NoOccurrence(find: string, replace: string)
    requires find != ""
    ensures Occurrences("", find) == 0 && ReplaceAll("", find, replace) == ""
  {
  }

  lemma SeparatesFirst(c: char, n: nat, part: string)
    requires Separates(c, n, part)
    ensures part != "" && c != part[0]
  {
  }

  lemma Regroup(a: string, b: string, c: string, d: string)
    ensures a + (b + c + d) == (a + b) + c + d
  {
  }

  /** A text that begins with the part goes on after it. */
  lemma StartsOn(x: string, more: string, find: string, replace: string)
    requires find != "" && OccursAt(x, find, 0)
    ensures Occurrences(x + more, find) == 1 + Occurrences(x[|find|..] + more, find)
    ensures ReplaceAll(x + more, find, replace) == replace + ReplaceAll(x[|find|..] + more, find, replace)
  {
    assert (x + more)[0..|find|] == x[0..|find|] && (x + more)[|find|..] == x[|find|..] + more;
  }

  lemma NotAtStart(x: string, c: char, n: nat, y: string, find: string)
    requires Separates(c, n, find) && x != "" && !OccursAt(x, find, 0)
    ensures !OccursAt(x + Run(c, n) + y, find, 0)
  {
    var s, last := x + Run(c, n) + y, |find| - 1;
    OccursChars(s, find, 0);
    OccursChars(x, find, 0);
    assert |x| <= last ==> s[last] == c;
    assert |x| > last ==> forall k :: 0 <= k < |find| ==> s[k] == x[k];
  }

  /** k copies with a run between them. */
  function Copies(x: string, c: char, n: nat, k: nat): string
    requires k > 0
  {
    if k == 1 then x else x + Run(c, n) + Copies(x, c, n, k - 1)
  }

  lemma {:induction false} CopiesApart(x: string, c: char, n: nat, k: nat, find: string, replace: string)
    requires Separates(c, n, find) && k > 0
    ensures Occurrences(Copies(x, c, n, k), find) == k * Occurrences(x, find)
    ensures ReplaceAll(Copies(x, c, n, k), find, replace) == Copies(ReplaceAll(x, find, replace), c, n, k)
  {
    if k > 1 {
      CopiesApart(x, c, n, k - 1, find, replace);
      HeldApart(x, c, n, Copies(x, c, n, k - 1), find, replace);
      assert (k - 1) * Occurrences(x, find) + Occurrences(x, find) == k * Occurrences(x, find);
    }
  }

  /** There is always a character that separates. */
  lemma Separator(a: char, b: char) returns (c: char)
    ensures c != a && c != b
  {
    c := if 'x' != a && 'x' != b then 'x' else if 'y' != a && 'y' != b then 'y' else 'z';
  }

  // ----- the first occurrence -----

  function First(text: string, part: string): (i: nat)
    requires part != "" && Occurrences(text, part) > 0
    ensures OccursAt(text, part, i) && forall j: nat :: j < i ==> !OccursAt(text, part, j)
    decreases |text|
  {
    if OccursAt(text, part, 0) then 0
    else
      var i := First(text[1..], part);
      OccursShift(text, part, i);
      assert forall j: nat :: j < i + 1 ==> !OccursAt(text, part, j) by {
        forall j: nat | j < i + 1 ensures !OccursAt(text, part, j) { if j > 0 { OccursShift(text, part, j - 1); } }
      }
      i + 1
  }

  /** Replacing goes on right after the first occurrence. */
  lemma {:induction false} AtFirst(text: string, find: string, replace: string, i: nat)
    requires find != "" && OccursAt(text, find, i) && forall j: nat :: j < i ==> !OccursAt(text, find, j)
    ensures Occurrences(text, find) == 1 + Occurrences(text[i + |find|..], find)
    ensures ReplaceAll(text, find, replace) == text[..i] + replace + ReplaceAll(text[i + |find|..], find, replace)
    decreases i
  {
    hide OccursAt, Occurrences, ReplaceAll;
    OccursFits(text, find, i);
    if i > 0 {
      var rest := text[1..];
      OccursShift(text, find, i - 1);
      forall j: nat | j < i - 1 ensures !OccursAt(rest, find, j) { OccursShift(text, find, j); }
      AtFirst(rest, find, replace, i - 1);
      NotFirst(text, find, replace);
      assert rest[i - 1 + |find|..] == text[i + |find|..] && [text[0]] + rest[..i - 1] == text[..i];
      Regroup([text[0]], rest[..i - 1], replace, ReplaceAll(text[i + |find|..], find, replace));
    } else {
      StartsOn(text, "", find, replace);
      assert text + "" == text && text[|find|..] + "" == text[|find|..];
      assert text[..0] == "" && text[0 + |find|..] == text[|find|..];
      assert "" + replace + ReplaceAll(text[|find|..], find, replace) ==
             replace + ReplaceAll(text[|find|..], find, replace);
    }
  }

  lemma OccursFits(text: string, part: string, i: nat)
    requires OccursAt(text, part, i)
    ensures i + |part| <= |text|
  {
  }

  lemma {:induction false} NothingToReplace(text: string, find: string, replace: string)
    requires find != "" && Occurrences(text, find) == 0
    ensures ReplaceAll(text, find, replace) == text
    decreases |text|
  {
    if |text| >= |find| { NothingToReplace(text[1..], find, replace); }
  }

  // ----- which edits can be pending again -----

  ghost predicate PendingAgain(text: string, find: string, replace: string, wanted: int)
    requires find != ""
  {
    && ExactEditState(text, find, replace, wanted) == Pending
    && ExactEditState(ReplaceAll(text, find, replace), find, replace, wanted) == Pending
  }

  /** All its characters are the same. */
  predicate Unary(s: string) {
    forall i :: 0 <= i < |s| ==> s[i] == s[0]
  }

  /** The part is split around what is left of it: `before` + `left` + `after`. Written around the part
      itself, the two sides close up to the part again when it is cut down to what is left. */
  lemma ClosesUp(find: string, left: string, before: string, after: string)
    requires find == before + left + after && |after| < |find| && find != ""
    requires forall j: nat :: j < |before| ==> !OccursAt(before + find + after, find, j)
    ensures Occurrences(before + find + after, find) == 1
    ensures ReplaceAll(before + find + after, find, left) == find
  {
    var text := before + find + after;
    assert OccursAt(text, find, |before|) by { assert text[|before|..|before| + |find|] == find; }
    AtFirst(text, find, left, |before|);
    assert text[|before| + |find|..] == after && text[..|before|] == before;
  }

  /** If the split is the leftmost one, the part does not occur earlier in that text. */
  lemma LeftmostSplit(find: string, left: string, i: nat, j: nat)
    requires left != "" && OccursAt(find, left, i) && j < i && !OccursAt(find, left, j)
    ensures !OccursAt(find[..i] + find + find[i + |left|..], find, j)
  {
    var text := find[..i] + find + find[i + |left|..];
    OccursChars(text, find, j);
    OccursChars(find, left, i);
    OccursChars(find, left, j);
    forall k | j <= k < j + |left| ensures OccursAt(text, find, j) ==> find[k] == left[k - j] {
      assert text[i + k] == find[k];
      assert find[i + k - j] == left[k - j];
    }
  }

  /** A text that is pending again, for each part that something of can be left. */
  lemma ClosingText(find: string, left: string) returns (text: string)
    requires find != "" && find != left && Includes(find, left) && (left != "" || !Unary(find))
    ensures Occurrences(text, find) == 1 && ReplaceAll(text, find, left) == find
  {
    if left != "" {
      OccurrencesFound(find, left);
      var i := First(find, left);
      var before, after := find[..i], find[i + |left|..];
      assert find == before + left + after;
      forall j: nat | j < i ensures !OccursAt(before + find + after, find, j) { LeftmostSplit(find, left, i, j); }
      ClosesUp(find, left, before, after);
      text := before + find + after;
    } else {
      var before, after := find[..1], find[1..];
      assert find == before + left + after;
      NotUnaryFirst(find);
      forall j: nat | j < |before| ensures !OccursAt(before + find + after, find, j) {}
      ClosesUp(find, left, before, after);
      text := before + find + after;
    }
  }

  lemma NotUnaryFirst(find: string)
    requires find != "" && !Unary(find)
    ensures !OccursAt(find[..1] + find + find[1..], find, 0)
  {
    var text := find[..1] + find + find[1..];
    if OccursAt(text, find, 0) {
      forall i | 0 <= i < |find| ensures find[i] == find[0] { SameAsFirst(find, text, i); }
    }
  }

  lemma {:induction false} SameAsFirst(find: string, text: string, i: nat)
    requires i < |find| && text == find[..1] + find + find[1..] && text[0..|find|] == find
    ensures find[i] == find[0]
  {
    if i > 0 {
      SameAsFirst(find, text, i - 1);
      assert find[i] == text[0..|find|][i] == text[i] == find[i - 1];
    }
  }

  // ----- a part of one character, removed -----

  function Leading(text: string, c: char): nat {
    if text == "" || text[0] != c then 0 else 1 + Leading(text[1..], c)
  }

  lemma {:induction false} LeadingOccurs(text: string, c: char, n: nat)
    ensures Leading(text, c) >= n <==> OccursAt(text, Run(c, n), 0)
  {
    if n > 0 && text != "" {
      LeadingOccurs(text[1..], c, n - 1);
      if OccursAt(text[1..], Run(c, n - 1), 0) && text[0] == c {
        assert text[0..n] == [c] + text[1..][0..n - 1];
      }
      if OccursAt(text, Run(c, n), 0) {
        assert text[0] == text[0..n][0] == c;
        assert text[1..][0..n - 1] == text[0..n][1..] == Run(c, n)[1..];
      }
    }
  }

  /** Removing runs of one character leaves shorter runs, which do not join. */
  lemma {:induction false} RunsGone(text: string, c: char, n: nat)
    requires n > 0
    ensures var after := ReplaceAll(text, Run(c, n), "");
            && Occurrences(after, Run(c, n)) == 0
            && (Leading(text, c) < n ==> Leading(after, c) == Leading(text, c))
    decreases |text|
  {
    var find := Run(c, n);
    LeadingOccurs(text, c, n);
    if |text| >= n {
      if OccursAt(text, find, 0) {
        RunsGone(text[n..], c, n);
        assert "" + ReplaceAll(text[n..], find, "") == ReplaceAll(text[n..], find, "");
      } else {
        RunsGone(text[1..], c, n);
        var after := ReplaceAll(text, find, "");
        assert after[1..] == ReplaceAll(text[1..], find, "");
        LeadingOccurs(after, c, n);
        NotFirst(after, find, "");
      }
    }
  }

  /** Over all texts: an edit can be pending again after it has been applied if and only if it deletes
      and what it leaves lets the old text close up again. */
  lemma PendingAgainExactly(find: string, replace: string, wanted: int)
    requires wanted > 0 && find != "" && find != replace
    ensures (exists text :: PendingAgain(text, find, replace, wanted)) <==>
            Includes(find, replace) && (replace != "" || !Unary(find))
  {
    hide Includes, OccursAt, Occurrences, ReplaceAll;
    if text :| PendingAgain(text, find, replace, wanted) { PendingAgainDeletes(text, find, replace, wanted); }
    if Includes(find, replace) && (replace != "" || !Unary(find)) {
      var text := PendingAgainText(find, replace, wanted);
    }
  }

  lemma PendingAgainDeletes(text: string, find: string, replace: string, wanted: int)
    requires wanted > 0 && find != "" && find != replace && PendingAgain(text, find, replace, wanted)
    ensures Includes(find, replace) && (replace != "" || !Unary(find))
  {
    hide Occurrences, ReplaceAll;
    if replace != "" {
      NeverAppliedTwice(text, find, replace, wanted);
    } else {
      assert OccursAt(find, replace, 0) by { assert find[0..0] == ""; }
      if Unary(find) {
        assert find == Run(find[0], |find|);
        RunsGone(text, find[0], |find|);
        DeletionPending(ReplaceAll(text, find, replace), find, replace, wanted);
      }
    }
  }

  lemma PendingAgainText(find: string, replace: string, wanted: int) returns (text: string)
    requires wanted > 0 && find != "" && find != replace && Includes(find, replace) && (replace != "" || !Unary(find))
    ensures PendingAgain(text, find, replace, wanted)
  {
    hide Includes, OccursAt, Occurrences, ReplaceAll, Run, Copies, ExactEditState;
    var n := |find|;
    var one := ClosingText(find, replace);
    var c := Separator(find[0], find[n - 1]);
    text := Copies(one, c, n, wanted);
    CopiesApart(one, c, n, wanted, find, replace);
    CopiesApart(find, c, n, wanted, find, replace);
    OccursFirst(find, "");
    assert find + "" == find;
    NoOccurrence(find, replace);
    DeletionPending(text, find, replace, wanted);
    DeletionPending(Copies(find, c, n, wanted), find, replace, wanted);
  }

  /** A deletion is pending exactly if its old text occurs as often as wanted. */
  lemma DeletionPending(text: string, find: string, replace: string, wanted: int)
    requires wanted > 0 && find != "" && find != replace && Includes(find, replace)
    ensures ExactEditState(text, find, replace, wanted) == Pending <==> Occurrences(text, find) == wanted
  {
    if Includes(replace, find) { IncludesBoth(find, replace); }
  }
}
