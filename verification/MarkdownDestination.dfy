/** `markdown`: where the destination of a link, an image or a definition stands in its source text,
    found by scanning and without printing the node again. */
module MarkdownDestination {
  import opened Basics
  import opened Text

  datatype Range = Range(start: nat, end: nat)

  // ----- escapes and nesting, read off a text without scanning it -----

  /** The character at i is taken literally: an unescaped backslash stands before it. */
  predicate Escaped(s: string, i: nat)
    requires i <= |s|
  {
    i > 0 && s[i - 1] == '\\' && !Escaped(s, i - 1)
  }

  predicate Is(s: string, i: nat, c: char) {
    i < |s| && s[i] == c && !Escaped(s, i)
  }

  /** Unescaped openers minus unescaped closers in the first n characters. */
  function Depth(s: string, n: nat, open: char, close: char): int
    requires n <= |s|
  {
    if n == 0 then 0
    else Depth(s, n - 1, open, close) + if Is(s, n - 1, open) then 1 else if Is(s, n - 1, close) then -1 else 0
  }

  /** No closer without its opener, no opener left open, no backslash left pending. */
  ghost predicate Balanced(s: string, open: char, close: char) {
    && Depth(s, |s|, open, close) == 0
    && !Escaped(s, |s|)
    && forall n :: 0 <= n <= |s| ==> Depth(s, n, open, close) >= 0
  }

  /** Just before i stand n backslashes and no more. */
  ghost predicate Backslashes(s: string, i: nat, n: nat) {
    && n <= i <= |s| && (forall k :: i - n <= k < i ==> s[k] == '\\')
    && (n < i ==> s[i - n - 1] != '\\')
  }

  /** A character is escaped exactly if the number of backslashes before it is odd. */
  lemma {:induction false} EscapedMeaning(s: string, i: nat) returns (n: nat)
    requires i <= |s|
    ensures Backslashes(s, i, n) && (Escaped(s, i) <==> n % 2 == 1)
  {
    if i == 0 || s[i - 1] != '\\' {
      n := 0;
    } else {
      n := EscapedMeaning(s, i - 1);
      n := n + 1;
    }
  }

  lemma BackslashesOnce(s: string, i: nat, m: nat, n: nat)
    requires Backslashes(s, i, m) && Backslashes(s, i, n)
    ensures m == n
  {
  }

  /** Where c stands among the first n characters, with an even number of backslashes before it. */
  ghost function Marks(s: string, n: nat, c: char): set<int>
    requires n <= |s|
  {
    set i | 0 <= i < n && MarkAt(s, i, c)
  }

  ghost predicate MarkAt(s: string, i: nat, c: char) {
    i < |s| && s[i] == c && exists m: nat :: Backslashes(s, i, m) && m % 2 == 0
  }

  lemma IsMeaning(s: string, i: nat, c: char)
    ensures Is(s, i, c) <==> MarkAt(s, i, c)
  {
    if i < |s| {
      var m := EscapedMeaning(s, i);
      forall n: nat | Backslashes(s, i, n) ensures n == m { BackslashesOnce(s, i, m, n); }
    }
  }

  /** The depth is the number of openers minus the number of closers. */
  lemma {:induction false} DepthMeaning(s: string, n: nat, open: char, close: char)
    requires n <= |s| && open != close
    ensures Depth(s, n, open, close) == |Marks(s, n, open)| - |Marks(s, n, close)|
  {
    if n == 0 {
      assert Marks(s, 0, open) == {} && Marks(s, 0, close) == {};
    } else {
      DepthMeaning(s, n - 1, open, close);
      MoreMarks(s, n - 1, open);
      MoreMarks(s, n - 1, close);
    }
  }

  lemma MoreMarks(s: string, n: nat, c: char)
    requires n < |s|
    ensures |Marks(s, n + 1, c)| == |Marks(s, n, c)| + if Is(s, n, c) then 1 else 0
  {
    IsMeaning(s, n, c);
    hide MarkAt, Is;
    var before, now := Marks(s, n, c), Marks(s, n + 1, c);
    assert now == if MarkAt(s, n, c) then before + {n} else before;
  }

  // ----- labelEnd -----

  ghost predicate ClosesLabel(s: string, k: nat) {
    k < |s| && Is(s, k, ']') && Depth(s, k + 1, '[', ']') == 0
  }

  /** `k` is the first place that closes the first bracket of the text s; None if there is none. */
  ghost predicate LabelCloses(s: string, k: Option<nat>) {
    if k.None? then forall j: nat :: !ClosesLabel(s, j)
    else ClosesLabel(s, k.value) && forall j: nat :: j < k.value ==> !ClosesLabel(s, j)
  }

  /** The index of the first c at or after i. */
  function IndexFrom(s: string, c: char, i: nat): (r: Option<nat>)
    requires i <= |s|
    ensures r.Some? ==> i <= r.value < |s| && s[r.value] == c && c !in s[i..r.value]
    ensures r.None? ==> c !in s[i..]
    decreases |s| - i
  {
    if i == |s| then None else if s[i] == c then Some(i) else IndexFrom(s, c, i + 1)
  }

  ghost predicate LabelEndsAt(source: string, end: Option<nat>) {
    var first := IndexFrom(source, '[', 0);
    if first.None? then end.None?
    else
      && (end.Some? ==> first.value <= end.value < |source|)
      && LabelCloses(source[first.value..], if end.None? then None else Some(end.value - first.value))
  }

  method LabelEnd(source: string) returns (end: Option<nat>)
    ensures LabelEndsAt(source, end)
  {
    var found := IndexFrom(source, '[', 0);
    if found.None? { return None; }
    var first := found.value;
    ghost var s := source[first..];
    var depth := 0;
    var index := first;
    while index < |source|
      invariant first <= index <= |source| + 1
      invariant index <= |source| ==> !Escaped(s, index - first) && depth == Depth(s, index - first, '[', ']')
      invariant first < index <= |source| ==> depth > 0
      invariant forall j: nat :: j < index - first ==> !ClosesLabel(s, j)
    {
      ghost var k := index - first;
      assert s[k] == source[index];
      assert Escaped(s, k + 1) <==> s[k] == '\\';
      if source[index] == '\\' {
        index := index + 1;
      } else if source[index] == '[' {
        depth := depth + 1;
      } else if source[index] == ']' {
        depth := depth - 1;
        if depth == 0 { return Some(index); }
      }
      index := index + 1;
    }
    return None;
  }

  // ----- destinationRange -----

  datatype Kind = Link | Image | Definition

  function SkipWhitespace(source: string, start: nat): (index: nat)
    requires start <= |source|
    ensures start <= index <= |source| && (index < |source| ==> !IsSpace(source[index]))
    ensures forall k :: start <= k < index ==> IsSpace(source[k])
    decreases |source| - start
  {
    if start < |source| && IsSpace(source[start]) then SkipWhitespace(source, start + 1) else start
  }

  /** Where the destination can begin, after the label that ends at `close`. */
  function Start(raw: string, kind: Kind, close: nat): (r: Option<nat>)
    requires close < |raw|
    ensures r.Some? ==> r.value <= |raw|
  {
    if kind.Definition? then
      var colon := IndexFrom(raw, ':', close + 1);
      if colon.None? then None else Some(SkipWhitespace(raw, colon.value + 1))
    else if close + 1 < |raw| && raw[close + 1] == '(' then Some(SkipWhitespace(raw, close + 2))
    else None
  }

  /** An unescaped closing parenthesis or white space outside all parentheses. */
  ghost predicate StopsBare(t: string, k: nat) {
    k < |t| && !Escaped(t, k) && Depth(t, k, '(', ')') == 0 && (t[k] == ')' || IsSpace(t[k]))
  }

  ghost predicate BareEnds(t: string, end: nat) {
    end <= |t| && (end < |t| ==> StopsBare(t, end)) && forall j: nat :: j < end ==> !StopsBare(t, j)
  }

  ghost predicate AngleEnds(t: string, end: Option<nat>) {
    if end.None? then forall j: nat :: !Is(t, j, '>')
    else Is(t, end.value, '>') && forall j: nat :: j < end.value ==> !Is(t, j, '>')
  }

  ghost predicate EndsFrom(raw: string, start: nat, r: Option<Range>)
    requires start <= |raw|
  {
    if start < |raw| && raw[start] == '<' then
      && (r.Some? ==> r.value.start == start + 1 <= r.value.end)
      && AngleEnds(raw[start + 1..], if r.None? then None else Some(r.value.end - (start + 1)))
    else r.Some? && r.value.start == start <= r.value.end && BareEnds(raw[start..], r.value.end - start)
  }

  /** The range of the destination in a node's text; None stands for the "cannot locate" errors. */
  ghost predicate Located(raw: string, kind: Kind, r: Option<Range>) {
    exists close: Option<nat> :: LabelEndsAt(raw, close) &&
      if close.None? || Start(raw, kind, close.value).None? then r.None?
      else EndsFrom(raw, Start(raw, kind, close.value).value, r)
  }

  method DestinationRange(raw: string, kind: Kind) returns (r: Option<Range>)
    ensures Located(raw, kind, r)
  {
    var close := LabelEnd(raw);
    if close.None? { return None; }
    var from := Start(raw, kind, close.value);
    if from.None? { return None; }
    var start := from.value;
    if start < |raw| && raw[start] == '<' {
      r := AngleRange(raw, start);
    } else {
      r := BareRange(raw, start);
    }
  }

  method AngleRange(raw: string, start: nat) returns (r: Option<Range>)
    requires start < |raw| && raw[start] == '<'
    ensures EndsFrom(raw, start, r)
  {
    ghost var t := raw[start + 1..];
    var index := start + 1;
    while index < |raw|
      invariant start < index <= |raw| + 1
      invariant index <= |raw| ==> !Escaped(t, index - (start + 1))
      invariant forall j: nat :: j < index - (start + 1) ==> !Is(t, j, '>')
    {
      ghost var k := index - (start + 1);
      assert t[k] == raw[index];
      assert Escaped(t, k + 1) <==> t[k] == '\\';
      if raw[index] == '\\' {
        index := index + 1;
      } else if raw[index] == '>' {
        return Some(Range(start + 1, index));
      }
      index := index + 1;
    }
    return None;
  }

  method BareRange(raw: string, start: nat) returns (r: Option<Range>)
    requires start <= |raw| && (start < |raw| ==> raw[start] != '<')
    ensures EndsFrom(raw, start, r)
  {
    ghost var t := raw[start..];
    var depth := 0;
    var index := start;
    while index < |raw|
      invariant start <= index <= |raw| + 1
      invariant index <= |raw| ==> !Escaped(t, index - start) && 0 <= depth == Depth(t, index - start, '(', ')')
      invariant forall j: nat :: j < index - start ==> !StopsBare(t, j)
    {
      ghost var k := index - start;
      assert t[k] == raw[index];
      assert Escaped(t, k + 1) <==> t[k] == '\\';
      if raw[index] == '\\' {
        index := index + 1;
      } else if raw[index] == '(' {
        depth := depth + 1;
      } else if raw[index] == ')' {
        if depth == 0 { return Some(Range(start, index)); }
        depth := depth - 1;
      } else if IsSpace(raw[index]) && depth == 0 {
        return Some(Range(start, index));
      }
      index := index + 1;
    }
    return Some(Range(start, |raw|));
  }

  // ----- the range found is the destination that was written -----

  lemma {:induction false} PrefixScan(s: string, t: string, n: nat, open: char, close: char)
    requires n <= |s|
    ensures Escaped(s + t, n) == Escaped(s, n)
    ensures Depth(s + t, n, open, close) == Depth(s, n, open, close)
  {
    if n > 0 { PrefixScan(s, t, n - 1, open, close); }
  }

  lemma {:induction false} ShiftScan(first: char, s: string, n: nat, open: char, close: char)
    requires n <= |s| && first != '\\'
    ensures Escaped([first] + s, n + 1) == Escaped(s, n)
    ensures Depth([first] + s, n + 1, open, close) ==
            Depth(s, n, open, close) + if first == open then 1 else if first == close then -1 else 0
  {
    var r := [first] + s;
    if n == 0 {
      assert Depth(r, 1, open, close) ==
             Depth(r, 0, open, close) + if first == open then 1 else if first == close then -1 else 0;
    } else {
      ShiftScan(first, s, n - 1, open, close);
      assert r[n] == s[n - 1];
    }
  }

  /** The first bracket after a text without brackets. */
  lemma {:induction false} IndexAfter(prefix: string, c: char, rest: string, i: nat)
    requires c !in prefix && i <= |prefix|
    ensures IndexFrom(prefix + [c] + rest, c, i) == Some(|prefix|)
    decreases |prefix| - i
  {
    if i < |prefix| {
      assert prefix[i] in prefix;
      IndexAfter(prefix, c, rest, i + 1);
    }
  }

  lemma LabelScan(text: string, rest: string, n: nat)
    requires n <= |text|
    ensures var s := "[" + text + "]" + rest;
            && Escaped(s, n + 1) == Escaped(text, n)
            && Depth(s, n + 1, '[', ']') == 1 + Depth(text, n, '[', ']')
            && s[n + 1] == if n < |text| then text[n] else ']'
  {
    assert "[" + text + "]" + rest == ['['] + (text + ("]" + rest));
    ShiftScan('[', text + ("]" + rest), n, '[', ']');
    PrefixScan(text, "]" + rest, n, '[', ']');
  }

  /** The scan stops at the bracket that was written after the label if and only if the label's
      brackets balance, escapes taken into account. */
  lemma LabelExact(prefix: string, text: string, rest: string)
    requires '[' !in prefix
    ensures LabelEndsAt(prefix + "[" + text + "]" + rest, Some(|prefix| + 1 + |text|)) <==> Balanced(text, '[', ']')
  {
    var raw := prefix + "[" + text + "]" + rest;
    var s := "[" + text + "]" + rest;
    assert raw == prefix + ['['] + (text + "]" + rest);
    IndexAfter(prefix, '[', text + "]" + rest, 0);
    assert raw[|prefix|..] == s;
    var end := |text| + 1;
    forall n | 0 <= n <= |text|
      ensures Depth(s, n + 1, '[', ']') == 1 + Depth(text, n, '[', ']') && Escaped(s, n + 1) == Escaped(text, n)
    {
      LabelScan(text, rest, n);
    }
    LabelScan(text, rest, |text|);
    if Balanced(text, '[', ']') {
      BalancedCloses(text, rest);
    } else if LabelCloses(s, Some(end)) {
      ClosesBalanced(text, rest);
    }
  }

  lemma BalancedCloses(text: string, rest: string)
    requires Balanced(text, '[', ']')
    ensures LabelCloses("[" + text + "]" + rest, Some(|text| + 1))
  {
    var s := "[" + text + "]" + rest;
    LabelScan(text, rest, |text|);
    forall j: nat | j < |text| + 1 ensures !ClosesLabel(s, j) {
      if j > 0 {
        LabelScan(text, rest, j - 1);
        LabelScan(text, rest, j);
      }
    }
  }

  lemma {:induction false} OpenUntil(text: string, rest: string, n: nat)
    requires n <= |text| && LabelCloses("[" + text + "]" + rest, Some(|text| + 1))
    ensures Depth(text, n, '[', ']') >= 0
  {
    if n > 0 {
      OpenUntil(text, rest, n - 1);
      LabelScan(text, rest, n - 1);
      LabelScan(text, rest, n);
      assert !ClosesLabel("[" + text + "]" + rest, n);
    }
  }

  lemma ClosesBalanced(text: string, rest: string)
    requires LabelCloses("[" + text + "]" + rest, Some(|text| + 1))
    ensures Balanced(text, '[', ']')
  {
    LabelScan(text, rest, |text|);
    forall n | 0 <= n <= |text| ensures Depth(text, n, '[', ']') >= 0 { OpenUntil(text, rest, n); }
  }

  /** A node's text up to its destination: an optional mark, the label, and what separates them. */
  function Head(prefix: string, text: string, kind: Kind, spaces: string): string {
    prefix + "[" + text + "]" + (if kind.Definition? then ":" else "(") + spaces
  }

  ghost predicate HeadOf(prefix: string, text: string, spaces: string) {
    '[' !in prefix && Balanced(text, '[', ']') && forall c :: c in spaces ==> IsSpace(c)
  }

  lemma {:induction false} SkipAll(source: string, start: nat, index: nat)
    requires start <= index <= |source| && forall k :: start <= k < index ==> IsSpace(source[k])
    requires index < |source| ==> !IsSpace(source[index])
    ensures SkipWhitespace(source, start) == index
    decreases index - start
  {
    if start < index { SkipAll(source, start + 1, index); }
  }

  lemma LabelUnique(source: string, a: Option<nat>, b: Option<nat>)
    requires LabelEndsAt(source, a) && LabelEndsAt(source, b)
    ensures a == b
  {
  }

  /** In a node with a balanced label the destination is looked for right after its head. */
  lemma LocatedFrom(prefix: string, text: string, kind: Kind, spaces: string, rest: string, r: Option<Range>)
    requires HeadOf(prefix, text, spaces) && (rest != "" ==> !IsSpace(rest[0]))
    ensures var head := Head(prefix, text, kind, spaces);
            Located(head + rest, kind, r) <==> EndsFrom(head + rest, |head|, r)
  {
    hide LabelEndsAt, Head, HeadOf, Start, EndsFrom, Located, IsSpace;
    HeadScan(prefix, text, kind, spaces, rest);
    LocatedAfter(Head(prefix, text, kind, spaces) + rest, kind, |prefix| + 1 + |text|, r);
  }

  lemma LocatedAfter(raw: string, kind: Kind, close: nat, r: Option<Range>)
    requires LabelEndsAt(raw, Some(close))
    ensures close < |raw|
    ensures Located(raw, kind, r) <==>
            if Start(raw, kind, close).None? then r.None? else EndsFrom(raw, Start(raw, kind, close).value, r)
  {
    forall found: Option<nat> | LabelEndsAt(raw, found) ensures found == Some(close) {
      LabelUnique(raw, found, Some(close));
    }
  }

  lemma HeadScan(prefix: string, text: string, kind: Kind, spaces: string, rest: string)
    requires HeadOf(prefix, text, spaces) && (rest != "" ==> !IsSpace(rest[0]))
    ensures var head := Head(prefix, text, kind, spaces);
            var close := |prefix| + 1 + |text|;
            close < |head + rest| && LabelEndsAt(head + rest, Some(close)) &&
              Start(head + rest, kind, close) == Some(|head|)
  {
    var head := Head(prefix, text, kind, spaces);
    var raw := head + rest;
    var close := |prefix| + 1 + |text|;
    var sep := if kind.Definition? then ':' else '(';
    LabelExact(prefix, text, [sep] + spaces + rest);
    hide LabelEndsAt, Balanced, IsSpace;
    assert raw == prefix + "[" + text + "]" + ([sep] + spaces + rest);
    StartAfter(prefix + "[" + text + "]", sep, spaces, rest, kind);
    assert raw == prefix + "[" + text + "]" + [sep] + spaces + rest;
  }

  lemma StartAfter(before: string, sep: char, spaces: string, rest: string, kind: Kind)
    requires before != "" && sep == (if kind.Definition? then ':' else '(')
    requires (forall c :: c in spaces ==> IsSpace(c)) && (rest != "" ==> !IsSpace(rest[0]))
    ensures Start(before + [sep] + spaces + rest, kind, |before| - 1) == Some(|before| + 1 + |spaces|)
  {
    hide IsSpace;
    var raw := before + [sep] + spaces + rest;
    var first := |before| + 1;
    assert raw[|before|] == sep;
    forall k | first <= k < first + |spaces| ensures IsSpace(raw[k]) { assert raw[k] == spaces[k - first]; }
    if rest != "" { assert raw[first + |spaces|] == rest[0]; }
    SkipAll(raw, first, first + |spaces|);
  }

  // ----- bare destinations -----

  /** A destination in plain form: its parentheses balance and no white space stands outside them. */
  ghost predicate Bare(dest: string) {
    Balanced(dest, '(', ')') &&
      forall k :: 0 <= k < |dest| && IsSpace(dest[k]) && !Escaped(dest, k) ==> Depth(dest, k, '(', ')') > 0
  }

  /** What may follow a bare destination in a node: nothing, the closing parenthesis, or white space. */
  predicate Tail(tail: string) {
    tail == "" || tail[0] == ')' || IsSpace(tail[0])
  }

  lemma {:induction false} NeverNegative(dest: string, n: nat)
    requires n <= |dest| && forall k :: 0 <= k < |dest| ==> !StopsBare(dest, k)
    ensures Depth(dest, n, '(', ')') >= 0
  {
    if n > 0 {
      NeverNegative(dest, n - 1);
      assert !StopsBare(dest, n - 1);
    }
  }

  /** Balance outside which nothing stops is the same as a scan that runs to the end and ends even. */
  lemma BareScan(dest: string)
    ensures Bare(dest) <==>
            && (forall k: nat :: k < |dest| ==> !StopsBare(dest, k))
            && Depth(dest, |dest|, '(', ')') == 0 && !Escaped(dest, |dest|)
  {
    if Bare(dest) {
      forall k: nat | k < |dest| ensures !StopsBare(dest, k) {
        assert Depth(dest, k + 1, '(', ')') >= 0;
      }
    } else if forall k: nat :: k < |dest| ==> !StopsBare(dest, k) {
      forall n | 0 <= n <= |dest| ensures Depth(dest, n, '(', ')') >= 0 { NeverNegative(dest, n); }
      if Balanced(dest, '(', ')') {
        var k :| 0 <= k < |dest| && IsSpace(dest[k]) && !Escaped(dest, k) && Depth(dest, k, '(', ')') <= 0;
        assert StopsBare(dest, k);
      }
    }
  }

  /** A scan of a destination with something after it ends where it was written if and only if it is
      in plain form. */
  lemma BareExact(dest: string, tail: string)
    requires tail != "" && Tail(tail)
    ensures BareEnds(dest + tail, |dest|) <==> Bare(dest)
  {
    var t := dest + tail;
    BareScan(dest);
    forall k | 0 <= k <= |dest|
      ensures Escaped(t, k) == Escaped(dest, k) && Depth(t, k, '(', ')') == Depth(dest, k, '(', ')')
    {
      PrefixScan(dest, tail, k, '(', ')');
    }
    assert t[|dest|] == tail[0];
    forall k: nat | k < |dest| ensures StopsBare(t, k) <==> StopsBare(dest, k) { assert t[k] == dest[k]; }
  }

  lemma BareEndsUnique(t: string, a: nat, b: nat)
    requires BareEnds(t, a) && BareEnds(t, b)
    ensures a == b
  {
  }

  /** For every inline link or image, and every definition with something after its destination, the
      range found is exactly the destination if and only if the destination is in plain form. */
  lemma BareDestinationFound(prefix: string, text: string, kind: Kind, spaces: string, dest: string, tail: string,
                             r: Option<Range>)
    requires HeadOf(prefix, text, spaces) && tail != "" && Tail(tail)
    requires dest != "" ==> dest[0] != '<' && !IsSpace(dest[0])
    requires dest == "" ==> tail[0] == ')'
    requires Located(Head(prefix, text, kind, spaces) + dest + tail, kind, r)
    ensures var n := |Head(prefix, text, kind, spaces)|;
            r == Some(Range(n, n + |dest|)) <==> Bare(dest)
  {
    hide Head, HeadOf, Located, EndsFrom, Bare, Tail;
    var head := Head(prefix, text, kind, spaces);
    Associate(head, dest, tail);
    BareFirst(dest, tail);
    LocatedFrom(prefix, text, kind, spaces, dest + tail, r);
    BareFrom(head, dest, tail, r);
  }

  /** For every inline link or image, whatever its label: the range found is exactly the destination if
      and only if the label's brackets balance and the destination is in plain form. A label that ends
      elsewhere never leads to the destination by chance. */
  lemma InlineDestinationExact(prefix: string, text: string, kind: Kind, spaces: string, dest: string, tail: string,
                               r: Option<Range>)
    requires !kind.Definition? && '[' !in prefix && (forall c :: c in spaces ==> IsSpace(c)) && tail != "" && Tail(tail)
    requires dest != "" ==> dest[0] != '<' && !IsSpace(dest[0])
    requires dest == "" ==> tail[0] == ')'
    requires Located(Head(prefix, text, kind, spaces) + dest + tail, kind, r)
    ensures var n := |Head(prefix, text, kind, spaces)|;
            r == Some(Range(n, n + |dest|)) <==> Balanced(text, '[', ']') && Bare(dest)
  {
    hide Located, EndsFrom, Bare, Tail, Balanced;
    if Balanced(text, '[', ']') {
      BareDestinationFound(prefix, text, kind, spaces, dest, tail, r);
    } else {
      Associate(Head(prefix, text, kind, spaces), dest, tail);
      WrongLabel(prefix, text, kind, spaces, dest + tail, r);
    }
  }

  lemma WrongLabel(prefix: string, text: string, kind: Kind, spaces: string, rest: string, r: Option<Range>)
    requires !kind.Definition? && '[' !in prefix && (forall c :: c in spaces ==> IsSpace(c)) &&
             !Balanced(text, '[', ']')
    requires Located(Head(prefix, text, kind, spaces) + rest, kind, r)
    ensures r.Some? ==> r.value.start != |Head(prefix, text, kind, spaces)|
  {
    hide IsSpace, Balanced, LabelEndsAt, EndsFrom, Start, Head, Located;
    var raw, c := Head(prefix, text, kind, spaces) + rest, |prefix| + 1 + |text|;
    HeadChars(prefix, text, kind, spaces, rest);
    LabelElsewhere(prefix, text, spaces, rest);
    var close := SomeLabelEnd(raw, kind, r);
    if close.Some? && r.Some? {
      LocatedAfter(raw, kind, close.value, r);
      BracketsApart(raw, kind, close.value, c, |Head(prefix, text, kind, spaces)|);
    }
  }

  lemma SomeLabelEnd(raw: string, kind: Kind, r: Option<Range>) returns (close: Option<nat>)
    requires Located(raw, kind, r)
    ensures LabelEndsAt(raw, close) && (close.None? ==> r.None?)
  {
    hide EndsFrom;
    close :| LabelEndsAt(raw, close) &&
      if close.None? || Start(raw, kind, close.value).None? then r.None?
      else EndsFrom(raw, Start(raw, kind, close.value).value, r);
  }

  lemma LabelElsewhere(prefix: string, text: string, spaces: string, rest: string)
    requires '[' !in prefix && !Balanced(text, '[', ']')
    ensures !LabelEndsAt(prefix + "[" + text + "]" + ("(" + spaces + rest), Some(|prefix| + 1 + |text|))
  {
    LabelExact(prefix, text, "(" + spaces + rest);
  }

  lemma HeadChars(prefix: string, text: string, kind: Kind, spaces: string, rest: string)
    requires !kind.Definition? && forall c :: c in spaces ==> IsSpace(c)
    ensures var head, c := Head(prefix, text, kind, spaces), |prefix| + 1 + |text|;
            var raw := head + rest;
            && raw == prefix + "[" + text + "]" + ("(" + spaces + rest)
            && c + 2 <= |head| && raw[c] == ']' && raw[c + 1] == '(' &&
               forall k :: c + 2 <= k < |head| ==> IsSpace(raw[k])
  {
    hide IsSpace;
    var head, c := Head(prefix, text, kind, spaces), |prefix| + 1 + |text|;
    forall k | c + 2 <= k < |head| ensures IsSpace((head + rest)[k]) { assert (head + rest)[k] == spaces[k - (c + 2)]; }
  }

  /** From two brackets the destination begins at two places. */
  lemma BracketsApart(raw: string, kind: Kind, a: nat, b: nat, start: nat)
    requires !kind.Definition? && LabelEndsAt(raw, Some(a)) && a != b
    requires a < |raw| && Start(raw, kind, a).Some?
    requires b + 2 <= start <= |raw| && raw[b] == ']' && raw[b + 1] == '(' &&
             forall k :: b + 2 <= k < start ==> IsSpace(raw[k])
    ensures forall r :: EndsFrom(raw, Start(raw, kind, a).value, r) && r.Some? ==> r.value.start != start
  {
    hide BareEnds, AngleEnds;
    assert raw[a] == ']' by {
      var first := IndexFrom(raw, '[', 0);
      assert ClosesLabel(raw[first.value..], a - first.value);
    }
    assert !IsSpace(']') && !IsSpace('<');
    var s := Start(raw, kind, a).value;
    assert forall k :: a + 2 <= k < s ==> IsSpace(raw[k]);
  }

  lemma Associate(a: string, b: string, c: string)
    ensures a + b + c == a + (b + c)
  {
  }

  lemma BareFirst(dest: string, tail: string)
    requires tail != "" && (dest != "" ==> !IsSpace(dest[0])) && (dest == "" ==> tail[0] == ')')
    ensures dest + tail != "" && !IsSpace((dest + tail)[0])
  {
    assert (dest + tail)[0] == if dest != "" then dest[0] else tail[0];
  }

  lemma BareFrom(head: string, dest: string, tail: string, r: Option<Range>)
    requires tail != "" && Tail(tail) && (dest != "" ==> dest[0] != '<') && (dest == "" ==> tail[0] == ')')
    requires EndsFrom(head + (dest + tail), |head|, r)
    ensures r == Some(Range(|head|, |head| + |dest|)) <==> Bare(dest)
  {
    var raw := head + (dest + tail);
    hide BareEnds, Bare, Tail;
    assert raw[|head|] != '<' by { assert raw[|head|] == if dest != "" then dest[0] else tail[0]; }
    assert raw[|head|..] == dest + tail;
    assert (dest + tail)[0] != '<';
    BareExact(dest, tail);
    if Bare(dest) { BareEndsUnique(dest + tail, |dest|, r.value.end - |head|); }
  }

  /** A definition that ends with its destination: found exactly if nothing in it stops the scan. */
  lemma LastDestinationFound(prefix: string, text: string, spaces: string, dest: string, r: Option<Range>)
    requires HeadOf(prefix, text, spaces) && (dest != "" ==> dest[0] != '<' && !IsSpace(dest[0]))
    requires Located(Head(prefix, text, Definition, spaces) + dest, Definition, r)
    ensures var n := |Head(prefix, text, Definition, spaces)|;
            r == Some(Range(n, n + |dest|)) <==> forall k: nat :: k < |dest| ==> !StopsBare(dest, k)
  {
    var head := Head(prefix, text, Definition, spaces);
    LocatedFrom(prefix, text, Definition, spaces, dest, r);
    hide Head, HeadOf, Located, StopsBare;
    assert (head + dest)[|head|..] == dest;
    if dest != "" { assert (head + dest)[|head|] == dest[0]; }
    if forall k: nat :: k < |dest| ==> !StopsBare(dest, k) {
      BareEndsUnique(dest, |dest|, r.value.end - |head|);
    }
  }

  // ----- destinations in angle brackets -----

  ghost predicate Angled(dest: string) {
    !Escaped(dest, |dest|) && forall k :: 0 <= k < |dest| && dest[k] == '>' ==> Escaped(dest, k)
  }

  /** In angle brackets, the range found is the text between them if and only if every closing one
      inside is escaped. */
  lemma AngleDestinationFound(prefix: string, text: string, kind: Kind, spaces: string, dest: string, tail: string,
                              r: Option<Range>)
    requires HeadOf(prefix, text, spaces)
    requires Located(Head(prefix, text, kind, spaces) + ("<" + dest + ">" + tail), kind, r)
    ensures var n := |Head(prefix, text, kind, spaces)| + 1;
            r == Some(Range(n, n + |dest|)) <==> Angled(dest)
  {
    var head := Head(prefix, text, kind, spaces);
    LocatedFrom(prefix, text, kind, spaces, "<" + dest + ">" + tail, r);
    hide Head, HeadOf, Located;
    AngleFrom(head, dest, tail, r);
  }

  lemma AngleFrom(head: string, dest: string, tail: string, r: Option<Range>)
    requires EndsFrom(head + ("<" + dest + ">" + tail), |head|, r)
    ensures r == Some(Range(|head| + 1, |head| + 1 + |dest|)) <==> Angled(dest)
  {
    var raw := head + ("<" + dest + ">" + tail);
    var t := dest + (">" + tail);
    assert raw[|head|] == '<';
    assert raw[|head| + 1..] == t;
    hide Angled, AngleEnds;
    AngleExact(dest, tail);
    if Angled(dest) { AngleUnique(t, |dest|, if r.None? then None else Some(r.value.end - (|head| + 1))); }
  }

  lemma AngleUnique(t: string, a: nat, b: Option<nat>)
    requires AngleEnds(t, Some(a)) && AngleEnds(t, b)
    ensures b == Some(a)
  {
  }

  lemma AngleExact(dest: string, tail: string)
    ensures AngleEnds(dest + (">" + tail), Some(|dest|)) <==> Angled(dest)
  {
    var t := dest + (">" + tail);
    forall k | 0 <= k <= |dest| ensures Escaped(t, k) == Escaped(dest, k) { PrefixScan(dest, ">" + tail, k, '(', ')'); }
    assert t[|dest|] == '>';
    forall k: nat | k < |dest| ensures Is(t, k, '>') <==> Is(dest, k, '>') { assert t[k] == dest[k]; }
    if AngleEnds(t, Some(|dest|)) {
      forall k | 0 <= k < |dest| && dest[k] == '>' ensures Escaped(dest, k) { assert !Is(t, k, '>'); }
    }
  }

  // ----- reading and replacing -----

  function Get(raw: string, r: Range): string
    requires r.start <= r.end <= |raw|
  {
    raw[r.start..r.end]
  }

  function Put(raw: string, r: Range, value: string): string
    requires r.start <= r.end <= |raw|
  {
    raw[..r.start] + value + raw[r.end..]
  }

  /** Replacing a destination changes nothing else: the new destination is found where the old one
      was, and putting the old one back restores the node. */
  lemma DestinationLens(prefix: string, text: string, kind: Kind, spaces: string, dest: string, tail: string,
                        value: string, r: Option<Range>, q: Option<Range>)
    requires HeadOf(prefix, text, spaces) && tail != "" && Tail(tail)
    requires Bare(dest) && (dest != "" ==> dest[0] != '<' && !IsSpace(dest[0])) && (dest == "" ==> tail[0] == ')')
    requires Bare(value) && value != "" && value[0] != '<' && !IsSpace(value[0])
    requires var raw := Head(prefix, text, kind, spaces) + dest + tail;
             Located(raw, kind, r) &&
               (r.Some? && r.value.start <= r.value.end <= |raw| ==> Located(Put(raw, r.value, value), kind, q))
    ensures var raw := Head(prefix, text, kind, spaces) + dest + tail;
            && r.Some? && r.value.start <= r.value.end <= |raw|
            && Get(raw, r.value) == dest
            && var next := Put(raw, r.value, value);
               && q.Some? && q.value.start == r.value.start <= q.value.end <= |next|
               && Get(next, q.value) == value
               && Put(next, q.value, dest) == raw
               && next == Head(prefix, text, kind, spaces) + value + tail
  {
    var head := Head(prefix, text, kind, spaces);
    var raw := head + dest + tail;
    BareDestinationFound(prefix, text, kind, spaces, dest, tail, r);
    assert Put(raw, r.value, value) == head + value + tail by { PutBetween(head, dest, tail, value); }
    BareDestinationFound(prefix, text, kind, spaces, value, tail, q);
    hide Head, HeadOf, Located, Bare, Tail, Put;
    PutBetween(head, dest, tail, value);
    PutBetween(head, value, tail, dest);
  }

  lemma PutBetween(head: string, dest: string, tail: string, value: string)
    ensures var r := Range(|head|, |head| + |dest|);
            Get(head + dest + tail, r) == dest && Put(head + dest + tail, r, value) == head + value + tail
  {
    var raw := head + dest + tail;
    assert raw[..|head|] == head && raw[|head| + |dest|..] == tail;
  }

  // ----- where the scan does not see what the parser sees -----

  /** A bracket inside a code span is text to the parser but closes the label here, so the link
      [`]`](x) has no destination for the scan. */
  lemma CodeSpanInLabel(r: Option<Range>)
    requires Located("[`]`](x)", Link, r)
    ensures r.None? && !Balanced("`]`", '[', ']')
  {
    hide LabelEndsAt, Located, Balanced, EndsFrom;
    CodeSpanCloses();
    LocatedAfter("[`]`](x)", Link, 2, r);
  }

  lemma CodeSpanCloses()
    ensures LabelEndsAt("[`]`](x)", Some(2)) && !Balanced("`]`", '[', ']')
  {
    var raw := "[`]`](x)";
    assert raw[0..] == raw;
    assert IndexFrom(raw, '[', 0) == Some(0);
    assert Depth(raw, 1, '[', ']') == 1;
    assert Depth(raw, 2, '[', ']') == 1;
    assert Depth(raw, 3, '[', ']') == 0;
    assert forall j: nat :: j < 2 ==> !ClosesLabel(raw, j);
    assert Depth("`]`", 1, '[', ']') == 0 && Depth("`]`", 2, '[', ']') == -1;
  }
}
