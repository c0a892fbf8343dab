/** `rescope-vendor`: whether an exact edit that has been applied then counts as applied, which is what
    the check mode asks for. */
module VendorLanding {
  import opened VendorEdits

  // ----- one occurrence, or two -----

  ghost predicate TwoApart(text: string, part: string) {
    exists i: nat, j: nat :: i + |part| <= j && OccursAt(text, part, i) && OccursAt(text, part, j)
  }

  lemma {:induction false} SuffixOccurs(text: string, part: string, n: nat, i: nat)
    requires n <= |text|
    ensures OccursAt(text[n..], part, i) <==> OccursAt(text, part, n + i)
  {
    OccursChars(text[n..], part, i);
    OccursChars(text, part, n + i);
    if n + i + |part| <= |text| { assert text[n..][i..i + |part|] == text[n + i..n + i + |part|]; }
  }

  /** The count goes beyond one exactly if two occurrences do not overlap. */
  lemma CountsTwo(text: string, part: string)
    requires part != ""
    ensures Occurrences(text, part) >= 2 <==> TwoApart(text, part)
  {
    if Occurrences(text, part) >= 2 { FirstTwo(text, part); }
    if TwoApart(text, part) { TwoCounted(text, part); }
  }

  lemma FirstTwo(text: string, part: string)
    requires part != "" && Occurrences(text, part) >= 2
    ensures TwoApart(text, part)
  {
    hide Occurrences, OccursAt;
    var i := First(text, part);
    OccursFits(text, part, i);
    AtFirst(text, part, "", i);
    var j := First(text[i + |part|..], part);
    SuffixOccurs(text, part, i + |part|, j);
  }

  lemma TwoCounted(text: string, part: string)
    requires part != "" && TwoApart(text, part)
    ensures Occurrences(text, part) >= 2
  {
    var i: nat, j: nat :| i + |part| <= j && OccursAt(text, part, i) && OccursAt(text, part, j);
    OccursFits(text, part, j);
    hide Occurrences, OccursAt;
    var rest, k := text[i + |part|..], j - (i + |part|);
    AtLeastOne(text, part, j);
    assert rest[k..] == text[j..];
    DropNeverGains(rest, part, k);
    OnePlus(text, part, i);
    DropNeverGains(text, part, i);
  }

  lemma AtLeastOne(text: string, part: string, j: nat)
    requires part != "" && OccursAt(text, part, j)
    ensures j <= |text| && Occurrences(text[j..], part) >= 1
  {
    OnePlus(text, part, j);
  }

  lemma OnePlus(text: string, part: string, i: nat)
    requires part != "" && OccursAt(text, part, i)
    ensures i + |part| <= |text| && Occurrences(text[i..], part) == 1 + Occurrences(text[i + |part|..], part)
  {
    var s := text[i..];
    assert s == part + s[|part|..] && s[|part|..] == text[i + |part|..];
    OccursFirst(part, s[|part|..]);
  }

  // ----- what stands around the place of an edit -----

  predicate EndsWith(s: string, suffix: string) {
    |suffix| <= |s| && s[|s| - |suffix|..] == suffix
  }

  predicate BeginsWith(s: string, prefix: string) {
    |prefix| <= |s| && s[..|prefix|] == prefix
  }

  /** The first n characters of the part stand right before `middle`, and `middle` goes on with the rest
      of it but is longer. */
  predicate LeftOver(before: string, part: string, middle: string, n: nat) {
    0 < n < |part| && |part| - n < |middle| && EndsWith(before, part[..n]) && BeginsWith(middle, part[n..])
  }

  /** The last n characters of the part stand right after `middle`, which ends with the rest of it but is
      longer. */
  predicate RightOver(middle: string, part: string, after: string, n: nat) {
    0 < n < |part| && |part| - n < |middle| && EndsWith(middle, part[..|part| - n]) &&
      BeginsWith(after, part[|part| - n..])
  }

  lemma LeftOccurs(before: string, middle: string, after: string, part: string, n: nat)
    requires 0 < n < |part| && |part| - n < |middle| && n <= |before|
    ensures LeftOver(before, part, middle, n) <==> OccursAt(before + middle + after, part, |before| - n)
  {
    var text, i := before + middle + after, |before| - n;
    var s := text[i..i + |part|];
    assert s == before[i..] + middle[..|part| - n];
    assert part == part[..n] + part[n..];
    if s == part {
      assert before[i..] == s[..n] && middle[..|part| - n] == s[n..];
    }
  }

  lemma RightOccurs(before: string, middle: string, after: string, part: string, n: nat)
    requires 0 < n < |part| && |part| - n < |middle| && n <= |after|
    ensures RightOver(middle, part, after, n) <==>
            OccursAt(before + middle + after, part, |before| + |middle| + n - |part|)
  {
    var text, k, i := before + middle + after, |part| - n, |before| + |middle| + n - |part|;
    var s := text[i..i + |part|];
    assert s == middle[|middle| - k..] + after[..n];
    assert part == part[..k] + part[k..];
    if s == part {
      assert middle[|middle| - k..] == s[..k] && after[..n] == s[k..];
    }
  }

  /** An occurrence that neither text around the middle holds, and that neither holds nor is held by the
      middle, sticks out of the middle on one side. */
  lemma SticksOut(before: string, middle: string, after: string, part: string, i: nat) returns (left: bool, n: nat)
    requires part != "" && OccursAt(before + middle + after, part, i)
    requires !Includes(before, part) && !Includes(after, part)
    requires !Includes(part, middle) || part == middle
    requires !Includes(middle, part) || i < |before| || |before| + |middle| < i + |part|
    ensures 0 < n < |part| && |part| - n < |middle|
    ensures if left then n <= |before| && i == |before| - n && LeftOver(before, part, middle, n)
            else n <= |after| && i == |before| + |middle| + n - |part| && RightOver(middle, part, after, n)
  {
    var text := before + middle + after;
    OccursFits(text, part, i);
    NotBefore(before, middle + after, part, i);
    assert before + (middle + after) == text;
    NotAfter(before + middle, after, part, i);
    NotInside(before, middle, after, part, i);
    NotAround(before, middle, after, part, i);
    if i < |before| {
      left, n := true, |before| - i;
      LeftOccurs(before, middle, after, part, n);
    } else {
      left, n := false, i + |part| - |before| - |middle|;
      RightOccurs(before, middle, after, part, n);
    }
  }

  lemma NotBefore(before: string, more: string, part: string, i: nat)
    requires OccursAt(before + more, part, i) && !Includes(before, part)
    ensures i + |part| > |before|
  {
    if i + |part| <= |before| {
      assert (before + more)[i..i + |part|] == before[i..i + |part|];
      assert OccursAt(before, part, i);
    }
  }

  lemma NotAfter(more: string, after: string, part: string, i: nat)
    requires OccursAt(more + after, part, i) && !Includes(after, part)
    ensures i < |more|
  {
    if i >= |more| {
      assert (more + after)[|more|..] == after;
      SuffixOccurs(more + after, part, |more|, i - |more|);
    }
  }

  lemma NotInside(before: string, middle: string, after: string, part: string, i: nat)
    requires OccursAt(before + middle + after, part, i) &&
             (!Includes(middle, part) || i < |before| || |before| + |middle| < i + |part|)
    ensures i < |before| || |before| + |middle| < i + |part|
  {
    if |before| <= i && i + |part| <= |before| + |middle| {
      var k := i - |before|;
      assert (before + middle + after)[i..i + |part|] == middle[k..k + |part|];
      assert OccursAt(middle, part, k);
    }
  }

  lemma NotAround(before: string, middle: string, after: string, part: string, i: nat)
    requires OccursAt(before + middle + after, part, i) && (!Includes(part, middle) || part == middle)
    requires i < |before| || |before| + |middle| < i + |part|
    ensures i > |before| || i + |part| < |before| + |middle|
  {
    if i <= |before| && |before| + |middle| <= i + |part| && part != middle {
      var text, k := before + middle + after, |before| - i;
      OccursChars(text, part, i);
      OccursChars(part, middle, k);
      forall j | k <= j < k + |middle| ensures part[j] == middle[j - k] {
        assert text[i + j] == part[i + j - i];
        assert text[i + j] == middle[i + j - |before|];
      }
    }
  }

  // ----- a single edit -----

  /** The text around the place completes a copy of the new text on either side, and the two copies do not
      overlap. */
  ghost predicate Doubles(before: string, replace: string, after: string) {
    exists m: nat, n: nat ::
      LeftOver(before, replace, replace, m) && RightOver(replace, replace, after, n) && m + n >= |replace|
  }

  /** The text around the place and the new text make up the old text again. */
  ghost predicate Revives(before: string, find: string, replace: string, after: string) {
    (exists n: nat :: LeftOver(before, find, replace, n)) || (exists n: nat :: RightOver(replace, find, after, n))
  }

  lemma OneOrTwo(before: string, replace: string, after: string)
    requires replace != "" && !Includes(before, replace) && !Includes(after, replace)
    ensures Occurrences(before + replace + after, replace) == 1 <==> !Doubles(before, replace, after)
  {
    hide Occurrences, Includes, Doubles, TwoApart;
    var text := before + replace + after;
    CountsTwo(text, replace);
    assert OccursAt(text, replace, |before|) by { assert text[|before|..|before| + |replace|] == replace; }
    AtLeastOne(text, replace, |before|);
    DropNeverGains(text, replace, |before|);
    if TwoApart(text, replace) { TwoDouble(before, replace, after); }
    if Doubles(before, replace, after) { DoublesTwo(before, replace, after); }
  }

  lemma TwoDouble(before: string, replace: string, after: string)
    requires replace != "" && !Includes(before, replace) && !Includes(after, replace)
    requires TwoApart(before + replace + after, replace)
    ensures Doubles(before, replace, after)
  {
    hide OccursAt, Includes, Doubles;
    var text := before + replace + after;
    var i: nat, j: nat :| i + |replace| <= j && OccursAt(text, replace, i) && OccursAt(text, replace, j);
    BothStickOut(before, replace, after, i, j);
  }

  lemma DoublesTwo(before: string, replace: string, after: string)
    requires Doubles(before, replace, after)
    ensures TwoApart(before + replace + after, replace)
  {
    var m: nat, n: nat :| LeftOver(before, replace, replace, m) && RightOver(replace, replace, after, n) &&
        m + n >= |replace|;
    LeftOccurs(before, replace, after, replace, m);
    RightOccurs(before, replace, after, replace, n);
    var i: nat, j: nat := |before| - m, |before| + n;
    hide OccursAt;
    assert i + |replace| <= j && OccursAt(before + replace + after, replace, i) &&
           OccursAt(before + replace + after, replace, j);
  }

  lemma BothStickOut(before: string, replace: string, after: string, i: nat, j: nat)
    requires replace != "" && !Includes(before, replace) && !Includes(after, replace)
    requires var text := before + replace + after;
             OccursAt(text, replace, i) && OccursAt(text, replace, j) && i + |replace| <= j
    ensures Doubles(before, replace, after)
  {
    hide OccursAt, Includes;
    assert before + (replace + after) == before + replace + after;
    NotBefore(before, replace + after, replace, i);
    NotAfter(before + replace, after, replace, j);
    var left, m := SticksOut(before, replace, after, replace, i);
    var again, n := SticksOut(before, replace, after, replace, j);
  }

  lemma Revived(before: string, find: string, replace: string, after: string)
    requires find != "" && !Includes(before, find) && !Includes(after, find) && !Includes(find, replace) &&
             !Includes(replace, find)
    ensures Includes(before + replace + after, find) <==> Revives(before, find, replace, after)
  {
    var text := before + replace + after;
    if Includes(text, find) {
      var i: nat :| i <= |text| && OccursAt(text, find, i);
      var left, n := SticksOut(before, replace, after, find, i);
    }
    if n: nat :| LeftOver(before, find, replace, n) {
      LeftOccurs(before, replace, after, find, n);
    } else if n: nat :| RightOver(replace, find, after, n) {
      RightOccurs(before, replace, after, find, n);
    }
  }

  /** The text before the first occurrence and the text after it, of a text that has just one. */
  lemma Around(text: string, find: string, replace: string)
    requires find != "" && Occurrences(text, find) == 1
    ensures var i := First(text, find);
            && i + |find| <= |text|
            && ReplaceAll(text, find, replace) == text[..i] + replace + text[i + |find|..]
            && !Includes(text[..i], find) && !Includes(text[i + |find|..], find)
  {
    hide Occurrences, ReplaceAll;
    var i := First(text, find);
    OccursFits(text, find, i);
    AtFirst(text, find, replace, i);
    NothingToReplace(text[i + |find|..], find, replace);
    OccurrencesFound(text[i + |find|..], find);
    if Includes(text[..i], find) {
      var j: nat :| j <= i && OccursAt(text[..i], find, j);
      OccursFits(text[..i], find, j);
      PrefixOccurs(text, i, find, j);
    }
  }

  lemma PrefixOccurs(text: string, n: nat, part: string, j: nat)
    requires n <= |text| && j + |part| <= n
    ensures OccursAt(text[..n], part, j) <==> OccursAt(text, part, j)
  {
    assert text[..n][j..j + |part|] == text[j..j + |part|];
  }

  lemma PartIncludes(text: string, from: nat, to: nat, part: string)
    requires from <= to <= |text| && !Includes(text, part)
    ensures !Includes(text[from..to], part)
  {
    if Includes(text[from..to], part) {
      var j: nat :| j <= to - from && OccursAt(text[from..to], part, j);
      OccursFits(text[from..to], part, j);
      assert text[from..to] == text[from..][..to - from];
      PrefixOccurs(text[from..], to - from, part, j);
      SuffixOccurs(text, part, from, j);
    }
  }

  /** Over all texts, for every edit that does not delete and is wanted once: it counts as applied after
      it has been applied if and only if the text around its place neither completes the new text a
      second time nor brings back the old one. */
  lemma LandsExactly(text: string, find: string, replace: string)
    requires find != "" && replace != "" && find != replace && !Includes(find, replace)
    requires ExactEditState(text, find, replace, 1) == Pending
    ensures Occurrences(text, find) == 1
    ensures var before, after := text[..First(text, find)], text[First(text, find) + |find|..];
            ExactEditState(ReplaceAll(text, find, replace), find, replace, 1) == Applied <==>
            !Doubles(before, replace, after) && (Includes(replace, find) || !Revives(before, find, replace, after))
  {
    hide Doubles, Revives, Occurrences, ReplaceAll, Includes, First;
    Around(text, find, replace);
    var i := First(text, find);
    OccurrencesFound(text, replace);
    SidesInclude(text, i, |find|, replace);
    LandsAround(text[..i], find, replace, text[i + |find|..]);
  }

  lemma SidesInclude(text: string, i: nat, n: nat, part: string)
    requires i + n <= |text| && !Includes(text, part)
    ensures !Includes(text[..i], part) && !Includes(text[i + n..], part)
  {
    hide Includes;
    PartIncludes(text, 0, i, part);
    PartIncludes(text, i + n, |text|, part);
    assert text[0..i] == text[..i] && text[i + n..|text|] == text[i + n..];
  }

  lemma LandsAround(before: string, find: string, replace: string, after: string)
    requires find != "" && replace != "" && !Includes(find, replace)
    requires !Includes(before, replace) && !Includes(after, replace) && !Includes(before, find) &&
             !Includes(after, find)
    ensures ExactEditState(before + replace + after, find, replace, 1) == Applied <==>
            !Doubles(before, replace, after) && (Includes(replace, find) || !Revives(before, find, replace, after))
  {
    hide Doubles, Revives, Occurrences, Includes;
    OneOrTwo(before, replace, after);
    OccurrencesFound(before + replace + after, find);
    if !Includes(replace, find) { Revived(before, find, replace, after); }
  }

  // ----- a single deletion -----

  /** What is left of the old text and the text on both sides close up to the old text again. */
  ghost predicate Closes(before: string, find: string, left: string, after: string) {
    exists m: nat, n: nat :: ClosesBy(before, find, left, after, m, n)
  }

  predicate ClosesBy(before: string, find: string, left: string, after: string, m: nat, n: nat) {
    m <= |before| && n <= |after| && find == before[|before| - m..] + left + after[..n]
  }

  lemma ClosesOccurs(before: string, find: string, left: string, after: string)
    requires Closes(before, find, left, after)
    ensures Includes(before + left + after, find)
  {
    var m: nat, n: nat :| ClosesBy(before, find, left, after, m, n);
    var text, i := before + left + after, |before| - m;
    assert text[i..i + |find|] == find;
    assert OccursAt(text, find, i);
  }

  lemma AroundCloses(before: string, find: string, left: string, after: string, i: nat)
    requires OccursAt(before + left + after, find, i) && i <= |before| && |before| + |left| <= i + |find|
    ensures Closes(before, find, left, after)
  {
    var text, m, n := before + left + after, |before| - i, i + |find| - |before| - |left|;
    OccursFits(text, find, i);
    SliceAcross(before, left, after, i, n);
    assert ClosesBy(before, find, left, after, m, n);
  }

  lemma SliceAcross(before: string, left: string, after: string, i: nat, n: nat)
    requires i <= |before| && n <= |after|
    ensures (before + left + after)[i..|before| + |left| + n] == before[i..] + left + after[..n]
  {
  }

  /** Where the old text stands after a deletion. */
  lemma Reappears(before: string, find: string, left: string, after: string)
    requires find != "" && |left| < |find| && !Includes(before, find) && !Includes(after, find)
    ensures Includes(before + left + after, find) <==>
            Revives(before, find, left, after) || Closes(before, find, left, after)
  {
    hide Closes, Includes;
    var text := before + left + after;
    if Includes(text, find) { ReappearsThere(before, find, left, after); }
    if Closes(before, find, left, after) { ClosesOccurs(before, find, left, after); }
    if n: nat :| LeftOver(before, find, left, n) {
      LeftOccurs(before, left, after, find, n);
      OccursIncludes(text, find, |before| - n);
    } else if n: nat :| RightOver(left, find, after, n) {
      RightOccurs(before, left, after, find, n);
      OccursIncludes(text, find, |before| + |left| + n - |find|);
    }
  }

  lemma OccursIncludes(text: string, part: string, i: nat)
    ensures OccursAt(text, part, i) ==> Includes(text, part)
  {
  }

  lemma ReappearsThere(before: string, find: string, left: string, after: string)
    requires find != "" && |left| < |find| && !Includes(before, find) && !Includes(after, find)
    requires Includes(before + left + after, find)
    ensures Revives(before, find, left, after) || Closes(before, find, left, after)
  {
    hide Closes;
    var text := before + left + after;
    var i: nat :| i <= |text| && OccursAt(text, find, i);
    hide Includes;
    OccursFits(text, find, i);
    assert before + (left + after) == text;
    NotBefore(before, left + after, find, i);
    NotAfter(before + left, after, find, i);
    if i <= |before| && |before| + |left| <= i + |find| {
      AroundCloses(before, find, left, after, i);
    } else if i < |before| {
      LeftOccurs(before, left, after, find, |before| - i);
    } else {
      RightOccurs(before, left, after, find, i + |find| - |before| - |left|);
    }
  }

  /** What is left of the old text also stands before or after its place. */
  lemma StandsTwice(before: string, left: string, after: string)
    requires left != "" && (Includes(before, left) || Includes(after, left))
    ensures Occurrences(before + left + after, left) >= 2
  {
    var text := before + left + after;
    assert OccursAt(text, left, |before|) by { assert text[|before|..|before| + |left|] == left; }
    if i: nat :| i <= |before| && OccursAt(before, left, i) {
      assert text[i..i + |left|] == before[i..i + |left|];
      assert OccursAt(text, left, i) && i + |left| <= |before|;
    } else {
      var i: nat :| i <= |after| && OccursAt(after, left, i);
      var j := |before| + |left| + i;
      assert text[j..j + |left|] == after[i..i + |left|];
      assert OccursAt(text, left, j) && |before| + |left| <= j;
    }
    CountsTwo(text, left);
  }

  /** The same for every deletion that is wanted once: it counts as applied after it has been applied if
      and only if what it leaves stands nowhere else afterwards (for a complete deletion, whose remainder
      is counted between the characters: if two of them are left), and the old text does not come back. */
  lemma DeletionLandsExactly(text: string, find: string, replace: string)
    requires find != replace && Includes(find, replace) && ExactEditState(text, find, replace, 1) == Pending
    ensures find != "" && Occurrences(text, find) == 1
    ensures var before, after := text[..First(text, find)], text[First(text, find) + |find|..];
            ExactEditState(ReplaceAll(text, find, replace), find, replace, 1) == Applied <==>
            && (if replace == "" then |before| + |after| == 2
                else !Includes(before, replace) && !Includes(after, replace) && !Doubles(before, replace, after))
            && !Revives(before, find, replace, after) && !Closes(before, find, replace, after)
  {
    IncludedFits(find, replace);
    hide Doubles, Revives, Closes, Occurrences, ReplaceAll, Includes, First;
    NotBothIncluded(find, replace);
    Around(text, find, replace);
    var i := First(text, find);
    DeletionAround(text[..i], find, replace, text[i + |find|..]);
  }

  lemma NotBothIncluded(a: string, b: string)
    requires a != b && Includes(a, b)
    ensures !Includes(b, a)
  {
    hide Includes;
    if Includes(b, a) { IncludesBoth(a, b); }
  }

  lemma DeletionAround(before: string, find: string, replace: string, after: string)
    requires find != "" && |replace| < |find| && Includes(find, replace) && !Includes(replace, find)
    requires !Includes(before, find) && !Includes(after, find)
    ensures ExactEditState(before + replace + after, find, replace, 1) == Applied <==>
            && (if replace == "" then |before| + |after| == 2
                else !Includes(before, replace) && !Includes(after, replace) && !Doubles(before, replace, after))
            && !Revives(before, find, replace, after) && !Closes(before, find, replace, after)
  {
    hide Doubles, Revives, Closes, Occurrences, Includes;
    var text := before + replace + after;
    Reappears(before, find, replace, after);
    OccurrencesFound(text, find);
    if replace != "" {
      if Includes(before, replace) || Includes(after, replace) {
        StandsTwice(before, replace, after);
      } else {
        OneOrTwo(before, replace, after);
      }
    }
  }

  // ----- edits that always land -----

  /** Some end of the first text is a beginning of the second. */
  ghost predicate Meet(a: string, b: string) {
    exists n: nat :: n < |a| && n < |b| && MeetBy(a, b, n)
  }

  predicate MeetBy(a: string, b: string, n: nat)
    requires n < |a| && n < |b|
  {
    n > 0 && a[|a| - n..] == b[..n]
  }

  /** An old text and a new text that cannot run into each other or into themselves. */
  ghost predicate Distinguishable(find: string, replace: string) {
    && find != "" && replace != "" && !Includes(find, replace) && !Meet(replace, replace)
    && (Includes(replace, find) || (!Meet(find, replace) && !Meet(replace, find)))
  }

  /** Where old text begins later, a part that stands at the start of the new text and did not stand at
      the start of the old one ends in the first replacement. */
  lemma NewAtStart(text: string, find: string, replace: string, part: string)
    requires find != "" && replace != "" && part != "" && !OccursAt(text, find, 0)
    requires !OccursAt(text, part, 0) && OccursAt(ReplaceAll(text, find, replace), part, 0)
    ensures (Includes(part, replace) && part != replace) || Meet(part, replace)
  {
    if Occurrences(text, find) == 0 {
      NothingToReplace(text, find, replace);
    } else {
      var i := First(text, find);
      OccursFits(text, find, i);
      AtFirst(text, find, replace, i);
      EndsInReplacement(text[..i], replace, ReplaceAll(text[i + |find|..], find, replace), part, text);
    }
  }

  lemma EndsInReplacement(gap: string, replace: string, rest: string, part: string, text: string)
    requires gap != "" && replace != "" && gap <= text && !OccursAt(text, part, 0) &&
             OccursAt(gap + replace + rest, part, 0)
    ensures (Includes(part, replace) && part != replace) || Meet(part, replace)
  {
    var after, i := gap + replace + rest, |gap|;
    assert part == after[0..|part|];
    OccursChars(text, part, 0);
    assert forall k :: 0 <= k < i ==> text[k] == after[k];
    var n := |part| - i;
    assert part[i..] == after[i..|part|];
    if n < |replace| {
      assert after[i..|part|] == replace[..n];
      assert MeetBy(part, replace, n);
    } else {
      assert part[i..i + |replace|] == after[i..i + |replace|] == replace;
      assert OccursAt(part, replace, i);
    }
  }

  lemma AcrossMeets(replace: string, rest: string, part: string, k: nat)
    requires OccursAt(replace + rest, part, k) && 0 < k < |replace| < k + |part|
    ensures Meet(replace, part)
  {
    var n := |replace| - k;
    assert replace[k..] == (replace + rest)[k..k + |part|][..n] == part[..n];
    assert MeetBy(replace, part, n);
  }

  lemma AcrossIncludes(replace: string, rest: string, part: string)
    requires OccursAt(replace + rest, part, 0) && |replace| < |part|
    ensures Includes(part, replace)
  {
    assert part[0..|replace|] == (replace + rest)[0..|part|][..|replace|] == replace;
    assert OccursAt(part, replace, 0);
  }

  /** A part that stands neither in a replacement nor in what follows it does not stand across them. */
  lemma NotAcross(replace: string, rest: string, part: string)
    requires part != "" && !Includes(replace, part) && !Includes(part, replace) && !Meet(replace, part) &&
             !Includes(rest, part)
    ensures !Includes(replace + rest, part)
  {
    hide Meet, OccursAt;
    if Includes(replace + rest, part) {
      var k: nat :| k <= |replace + rest| && OccursAt(replace + rest, part, k);
      NotAfter(replace, rest, part, k);
      NotBefore(replace, rest, part, k);
      if k > 0 { AcrossMeets(replace, rest, part, k); } else { AcrossIncludes(replace, rest, part); }
    }
  }

  /** Every occurrence replaced is then an occurrence of the new text, and there are no others; nothing of
      the old text is left, unless the new one contains it. */
  lemma {:induction false} AllLand(text: string, find: string, replace: string)
    requires Distinguishable(find, replace) && !Includes(text, replace)
    ensures var after := ReplaceAll(text, find, replace);
            && Occurrences(after, replace) == Occurrences(text, find)
            && (!Includes(replace, find) ==> !Includes(after, find))
    decreases |text|
  {
    hide Includes, Meet;
    if |text| < |find| {
      OccurrencesFound(text, replace);
      OccurrencesFound(text, find);
    } else if OccursAt(text, find, 0) {
      var rest := text[|find|..];
      PartIncludes(text, |find|, |text|, replace);
      assert text[|find|..|text|] == rest;
      AllLand(rest, find, replace);
      OccursFirst(replace, ReplaceAll(rest, find, replace));
      if !Includes(replace, find) { NotAcross(replace, ReplaceAll(rest, find, replace), find); }
    } else {
      PartIncludes(text, 1, |text|, replace);
      assert text[1..|text|] == text[1..];
      AllLand(text[1..], find, replace);
      KeepsFirst(text, find, replace);
    }
  }

  lemma KeepsFirst(text: string, find: string, replace: string)
    requires Distinguishable(find, replace) && !Includes(text, replace) && text != "" && !OccursAt(text, find, 0)
    requires !Includes(replace, find) ==> !Includes(ReplaceAll(text[1..], find, replace), find)
    ensures var after, rest := ReplaceAll(text, find, replace), ReplaceAll(text[1..], find, replace);
            && Occurrences(after, replace) == Occurrences(rest, replace)
            && (!Includes(replace, find) ==> !Includes(after, find))
  {
    var after := ReplaceAll(text, find, replace);
    NotFirst(text, find, replace);
    NotIncludedAt(text, replace, 0);
    if OccursAt(after, replace, 0) { NewAtStart(text, find, replace, replace); }
    NotFirst(after, replace, "");
    assert after[1..] == ReplaceAll(text[1..], find, replace);
    if !Includes(replace, find) {
      if OccursAt(after, find, 0) { NewAtStart(text, find, replace, find); }
      OccurrencesFound(after[1..], find);
      NotFirst(after, find, "");
      OccurrencesFound(after, find);
    }
  }

  lemma NotIncludedAt(text: string, part: string, i: nat)
    requires !Includes(text, part)
    ensures !OccursAt(text, part, i)
  {
  }

  /** However often the edit is wanted, and in every text: old and new texts that cannot run into each
      other always land. */
  lemma DistinguishableLands(text: string, find: string, replace: string, wanted: int)
    requires wanted > 0 && find != replace && Distinguishable(find, replace)
    requires ExactEditState(text, find, replace, wanted) == Pending
    ensures ExactEditState(ReplaceAll(text, find, replace), find, replace, wanted) == Applied
  {
    OccurrencesFound(text, replace);
    AllLand(text, find, replace);
    OccurrencesFound(ReplaceAll(text, find, replace), find);
  }

  // ----- edits that miss -----

  /** Text on both sides that completes the new text a second time: pending, applied, and then invalid. */
  lemma DoubledMisses()
    ensures ExactEditState("bab", "a", "bb", 1) == Pending
    ensures ReplaceAll("bab", "a", "bb") == "bbbb" && ExactEditState("bbbb", "a", "bb", 1) == Invalid
    ensures Doubles("b", "bb", "b")
  {
    DoubledCounts();
    assert LeftOver("b", "bb", "bb", 1) && RightOver("bb", "bb", "b", 1);
    hide Occurrences, ReplaceAll;
    NoneOf("bb", "a", 'a');
    assert !Includes("a", "bb");
  }

  lemma NoneOf(text: string, part: string, c: char)
    requires part != "" && part[0] == c && c !in text
    ensures !Includes(text, part) && Occurrences(text, part) == 0
  {
    forall i: nat ensures !OccursAt(text, part, i) {
      OccursChars(text, part, i);
      assert i < |text| ==> text[i] in text;
    }
    OccurrencesFound(text, part);
  }

  lemma DoubledCounts()
    ensures Occurrences("bab", "a") == 1 && Occurrences("bab", "bb") == 0 && ReplaceAll("bab", "a", "bb") == "bbbb"
    ensures Occurrences("bbbb", "a") == 0 && Occurrences("bbbb", "bb") == 2
  {
    NoneOf("b", "a", 'a');
    NoneOf("bbbb", "a", 'a');
    NothingToReplace("b", "a", "bb");
    assert "bab" == "b" + "a" + "b";
    assert !OccursAt("bab", "a", 0) by { assert "bab"[0..1] == "b"; }
    assert OccursAt("bab", "a", 1) by { assert "bab"[1..2] == "a"; }
    AtFirst("bab", "a", "bb", 1);
    assert "bab"[2..] == "b" && "bab"[..1] == "b" && "b" + "bb" + "b" == "bbbb";
    SelfTwice("bb");
    assert "bb" + "bb" == "bbbb";
    NoDouble();
  }

  lemma SelfTwice(part: string)
    requires part != ""
    ensures Occurrences(part + part, part) == 2
  {
    OccursFirst(part, part);
    SelfOnce(part, "");
  }

  lemma NoDouble()
    ensures Occurrences("bab", "bb") == 0
  {
    assert "bab"[0..2] == "ba" && "bab"[1..] == "ab" && "ab"[0..2] == "ab" && "ab"[1..] == "b";
    assert "ba"[1] == 'a' && "ab"[0] == 'a' && "bb"[0] == 'b' && "bb"[1] == 'b';
  }

  /** No deletion lands everywhere: wherever what it leaves also stands somewhere else, it ends invalid. */
  lemma DeletionMisses(find: string, replace: string, wanted: int) returns (text: string)
    requires wanted > 0 && replace != "" && find != replace && Includes(find, replace)
    ensures ExactEditState(text, find, replace, wanted) == Pending
    ensures ExactEditState(ReplaceAll(text, find, replace), find, replace, wanted) == Invalid
  {
    hide Includes, OccursAt, Occurrences, ReplaceAll, Run, Copies;
    var n := |find|;
    IncludedFits(find, replace);
    var c := FourSeparator(find[0], find[n - 1], replace[0], replace[|replace| - 1]);
    var copies := Copies(find, c, n, wanted);
    text := copies + Run(c, n) + replace;
    SelfOnce(find, replace);
    SelfOnce(replace, "");
    ShorterHasNone(replace, find);
    CopiesApart(find, c, n, wanted, find, replace);
    HeldApart(copies, c, n, replace, find, replace);
    NothingToReplace(replace, find, replace);
    DeletionPending(text, find, replace, wanted);
    LeftTooOften(find, replace, c, wanted);
  }

  /** A text is one occurrence of itself. */
  lemma SelfOnce(part: string, replace: string)
    requires part != ""
    ensures Occurrences(part, part) == 1 && ReplaceAll(part, part, replace) == replace
  {
    assert OccursAt(part, part, 0) by { assert part[0..|part|] == part; }
    StartsOn(part, "", part, replace);
    hide OccursAt;
    assert part + "" == part && part[|part|..] + "" == "" && replace + "" == replace;
  }

  lemma LeftTooOften(find: string, replace: string, c: char, wanted: int)
    requires wanted > 0 && replace != "" && find != replace && Includes(find, replace) && |replace| < |find|
    requires Separates(c, |find|, find) && Separates(c, |find|, replace)
    ensures ExactEditState(Copies(replace, c, |find|, wanted) + Run(c, |find|) + replace, find, replace, wanted) ==
            Invalid
  {
    hide Includes, OccursAt, Occurrences, ReplaceAll, Run, Copies, Separates;
    var n := |find|;
    SelfOnce(replace, "");
    ShorterHasNone(replace, find);
    CopiesApart(replace, c, n, wanted, find, "");
    CopiesApart(replace, c, n, wanted, replace, "");
    HeldApart(Copies(replace, c, n, wanted), c, n, replace, find, "");
    HeldApart(Copies(replace, c, n, wanted), c, n, replace, replace, "");
    if Includes(replace, find) { IncludesBoth(find, replace); }
  }

  lemma IncludedFits(find: string, replace: string)
    requires Includes(find, replace) && find != replace
    ensures |replace| < |find|
  {
    var i: nat :| i <= |find| && OccursAt(find, replace, i);
    assert find[0..|find|] == find;
  }

  lemma ShorterHasNone(text: string, part: string)
    requires |text| < |part|
    ensures Occurrences(text, part) == 0
  {
  }

  lemma FourSeparator(a: char, b: char, c: char, d: char) returns (e: char)
    ensures e != a && e != b && e != c && e != d
  {
    e := if a != 'v' && b != 'v' && c != 'v' && d != 'v' then 'v'
         else if a != 'w' && b != 'w' && c != 'w' && d != 'w' then 'w'
         else if a != 'x' && b != 'x' && c != 'x' && d != 'x' then 'x'
         else if a != 'y' && b != 'y' && c != 'y' && d != 'y' then 'y'
         else 'z';
  }
}
