/** `rescope-vendor`: the two replacements as they run on raw text, and what they do to the texts between
    its quotes. */
module VendorRewrite {
  import opened Basics
  import opened Text
  import opened VendorRename

  /** The names of the table have no quote, white space or comment sign in them. */
  predicate Plain(name: string) {
    name != "" && forall c :: c in name ==> !IsQuote(c) && !IsSpace(c) && c != '#'
  }

  ghost predicate PlainTable(all: seq<Pattern>) {
    Clean(all) && forall r :: r in all ==> Plain(r.from) && Plain(r.to)
  }

  predicate Unquoted(s: string) { forall c :: c in s ==> !IsQuote(c) }

  // ----- the quoted token -----

  /** How far a path without quotes and white space goes. */
  function PathRun(s: string): (n: nat)
    ensures n <= |s| && (n < |s| ==> IsQuote(s[n]) || IsSpace(s[n]))
    ensures forall i :: 0 <= i < n ==> !IsQuote(s[i]) && !IsSpace(s[i])
  {
    if s == "" || IsQuote(s[0]) || IsSpace(s[0]) then 0 else 1 + PathRun(s[1..])
  }

  /** The length of the token at the start of s: a quote, the name, a path below it or nothing, and the
      same quote. */
  function TokenLength(s: string, name: string): (n: Option<nat>)
    ensures n.Some? ==> |name| + 2 <= n.value <= |s|
  {
    if s == "" || !IsQuote(s[0]) || !StartsWith(s[1..], name) then None
    else
      var k := 1 + |name|;
      var end := if k < |s| && s[k] == '/' then k + PathRun(s[k..]) else k;
      if end < |s| && s[end] == s[0] then Some(end + 1) else None
  }

  /** `out.replace(pattern.token, …)`: from left to right, without overlap. */
  function ReplaceTokens(s: string, r: Pattern): string
    decreases |s|
  {
    if s == "" then ""
    else
      var n := TokenLength(s, r.from);
      if n.Some? then [s[0]] + r.to + s[1 + |r.from|..n.value - 1] + [s[0]] + ReplaceTokens(s[n.value..], r)
      else [s[0]] + ReplaceTokens(s[1..], r)
  }

  // ----- the YAML name -----

  function SpaceRun(s: string): (n: nat)
    ensures n <= |s| && (n < |s| ==> !IsSpace(s[n])) && forall i :: 0 <= i < n ==> IsSpace(s[i])
  {
    if s == "" || !IsSpace(s[0]) then 0 else 1 + SpaceRun(s[1..])
  }

  predicate IsBlank(c: char) { c == ' ' || c == '\t' }

  function BlankRun(s: string): (n: nat)
    ensures n <= |s| && (n < |s| ==> !IsBlank(s[n])) && forall i :: 0 <= i < n ==> IsBlank(s[i])
  {
    if s == "" || !IsBlank(s[0]) then 0 else 1 + BlankRun(s[1..])
  }

  /** Where the key `name:` begins, after white space and at most one list dash. */
  function KeyStart(s: string): (n: nat)
    ensures n <= |s| && forall i :: 0 <= i < n ==> IsSpace(s[i]) || s[i] == '-'
  {
    var i := SpaceRun(s);
    if i < |s| && s[i] == '-' then i + 1 + SpaceRun(s[i + 1..]) else i
  }

  /** Where the value of a `name:` key begins. */
  function ValueStart(s: string): (r: Option<nat>)
    ensures r.Some? ==> r.value <= |s| && (r.value < |s| ==> !IsBlank(s[r.value]))
  {
    var k := KeyStart(s);
    if StartsWith(s[k..], "name:") && BlankRun(s[k + 5..]) > 0 then Some(k + 5 + BlankRun(s[k + 5..])) else None
  }

  /** Nothing but blanks to the end of the line, or blanks and a comment. */
  predicate EndsValue(rest: string, closed: bool) {
    var k := BlankRun(rest);
    if k == |rest| then closed else rest[k] == '#'
  }

  /** The line is a `name:` entry for this name. `closed` says that s goes to the end of the line. */
  predicate NameAt(s: string, closed: bool, name: string) {
    var v := ValueStart(s);
    v.Some? && StartsWith(s[v.value..], name) && EndsValue(s[v.value + |name|..], closed)
  }

  function Patch(s: string, from: nat, to: nat, value: string): string
    requires from <= to <= |s|
  {
    s[..from] + value + s[to..]
  }

  function ReplaceName(s: string, closed: bool, r: Pattern): string {
    if NameAt(s, closed, r.from) then
      var v := ValueStart(s).value;
      Patch(s, v, v + |r.from|, r.to)
    else s
  }

  // ----- both replacements, on a stretch of a line without line terminators -----

  function StretchWith(s: string, r: Pattern): string {
    ReplaceName(ReplaceTokens(s, r), true, r)
  }

  function StretchAll(s: string, all: seq<Pattern>): string {
    if all == [] then s else StretchWith(StretchAll(s, all[..|all| - 1]), all[|all| - 1])
  }

  // ----- a line as the texts between its quotes -----

  datatype Line = Line(head: string, tail: seq<Piece>)

  function JoinPieces(tail: seq<Piece>): string {
    if tail == [] then "" else [tail[0].quote] + tail[0].text + JoinPieces(tail[1..])
  }

  function Join(l: Line): string { l.head + JoinPieces(l.tail) }

  ghost predicate ProperPieces(tail: seq<Piece>) {
    forall i :: 0 <= i < |tail| ==> IsQuote(tail[i].quote) && Unquoted(tail[i].text)
  }

  ghost predicate Proper(l: Line) { Unquoted(l.head) && ProperPieces(l.tail) }

  function Split(s: string): Line {
    if s == "" then Line("", [])
    else
      var rest := Split(s[1..]);
      if IsQuote(s[0]) then Line("", [Piece(s[0], rest.head)] + rest.tail) else Line([s[0]] + rest.head, rest.tail)
  }

  lemma {:induction false} SplitProper(s: string)
    ensures Proper(Split(s)) && Join(Split(s)) == s
  {
    if s != "" {
      SplitProper(s[1..]);
      var rest := Split(s[1..]);
      assert s == [s[0]] + s[1..];
      if IsQuote(s[0]) { assert ([Piece(s[0], rest.head)] + rest.tail)[1..] == rest.tail; }
    }
  }

  lemma {:induction false} SplitPlain(text: string, rest: string)
    requires Unquoted(text)
    ensures Split(text + rest) == Line(text + Split(rest).head, Split(rest).tail)
  {
    if text == "" {
      assert text + rest == rest && "" + Split(rest).head == Split(rest).head;
    } else {
      assert text[0] in text;
      forall c | c in text[1..] ensures !IsQuote(c) { assert c in text; }
      SplitPlain(text[1..], rest);
      assert (text + rest)[1..] == text[1..] + rest;
      assert text + Split(rest).head == [text[0]] + (text[1..] + Split(rest).head);
    }
  }

  lemma {:induction false} SplitPieces(tail: seq<Piece>)
    requires ProperPieces(tail)
    ensures Split(JoinPieces(tail)) == Line("", tail)
  {
    if tail != [] {
      var p, rest := tail[0], JoinPieces(tail[1..]);
      SplitPieces(tail[1..]);
      SplitPlain(p.text, rest);
      var s := JoinPieces(tail);
      assert s[1..] == p.text + rest;
      assert p.text + "" == p.text;
      assert tail == [p] + tail[1..];
    }
  }

  /** The pieces of a line are determined by it. */
  lemma SplitJoin(l: Line)
    requires Proper(l)
    ensures Split(Join(l)) == l
  {
    SplitPieces(l.tail);
    SplitPlain(l.head, JoinPieces(l.tail));
    assert l.head + "" == l.head;
  }

  // ----- the token replacement on pieces -----

  /** A text after which the line ends or a quote comes. */
  predicate Delimited(rest: string) { rest == "" || IsQuote(rest[0]) }

  lemma PathRunUnique(s: string, n: nat)
    requires n <= |s| && (n < |s| ==> IsQuote(s[n]) || IsSpace(s[n]))
    requires forall i :: 0 <= i < n ==> !IsQuote(s[i]) && !IsSpace(s[i])
    ensures PathRun(s) == n
  {
  }

  /** The regular expression matches at a quote exactly if the text up to the next quote is a token
      and that quote is the same. */
  lemma TokenMeaning(quote: char, text: string, rest: string, name: string)
    requires IsQuote(quote) && Unquoted(text) && Delimited(rest) && Plain(name)
    ensures TokenLength([quote] + text + rest, name) ==
            if rest != "" && rest[0] == quote && Names(text, name) then Some(|text| + 2) else None
  {
    hide PathRun, StartsWith, Plain, Unquoted, Delimited;
    var s := [quote] + text + rest;
    assert s[1..] == text + rest && s[0] == quote;
    TextStarts(text, rest, name);
    if StartsWith(text, name) {
      var n := |name|;
      StartsLength(text, name);
      assert s[1 + n..] == text[n..] + rest;
      RestAt(quote, text, rest, n);
      PathRest(text, rest, n);
    }
    NamesStarts(text, name);
  }

  lemma StartsLength(s: string, prefix: string)
    requires StartsWith(s, prefix)
    ensures |prefix| <= |s|
  {
  }

  lemma NamesStarts(text: string, name: string)
    ensures Names(text, name) ==> StartsWith(text, name)
  {
  }

  /** The characters of a quoted text, by position. */
  lemma RestAt(quote: char, text: string, rest: string, n: nat)
    requires Unquoted(text) && Delimited(rest) && n <= |text| && IsQuote(quote)
    ensures var s := [quote] + text + rest;
            && (forall i :: n <= i < |text| ==> s[1 + i] == text[i] && text[i] != quote)
            && (if rest == "" then |s| == 1 + |text| else s[1 + |text|] == rest[0])
  {
    forall i | n <= i < |text| ensures text[i] != quote { assert text[i] in text; }
  }

  lemma TextStarts(text: string, rest: string, name: string)
    requires Delimited(rest) && Plain(name)
    ensures StartsWith(text + rest, name) <==> StartsWith(text, name)
  {
    if StartsWith(text + rest, name) { NameInside(text, rest, name); }
    if StartsWith(text, name) { assert (text + rest)[..|name|] == text[..|name|]; }
  }

  /** A name without quotes at the start of text + rest lies within the text. */
  lemma NameInside(text: string, rest: string, name: string)
    requires Delimited(rest) && Plain(name) && StartsWith(text + rest, name)
    ensures StartsWith(text, name)
  {
    if rest != "" { assert (text + rest)[|text|] == rest[0]; }
    assert text[..|name|] == (text + rest)[..|name|];
  }

  lemma PathRest(text: string, rest: string, from: nat)
    requires Unquoted(text) && Delimited(rest) && from <= |text|
    ensures var n := PathRun(text[from..] + rest);
            if forall i :: from <= i < |text| ==> !IsSpace(text[i]) then n == |text| - from
            else n < |text| - from && IsSpace(text[from + n])
  {
    var s := text[from..] + rest;
    forall i | from <= i < |text| ensures s[i - from] == text[i] && !IsQuote(text[i]) { assert text[i] in text; }
    if forall i :: from <= i < |text| ==> !IsSpace(text[i]) {
      PathRunUnique(s, |text| - from);
    } else {
      var i :| from <= i < |text| && IsSpace(text[i]);
      assert IsSpace(s[i - from]);
      assert PathRun(s) <= i - from;
    }
  }

  lemma ReplaceOther(c: char, rest: string, r: Pattern)
    requires !IsQuote(c)
    ensures ReplaceTokens([c] + rest, r) == [c] + ReplaceTokens(rest, r)
  {
    assert ([c] + rest)[1..] == rest;
  }

  lemma {:induction false} ReplacePlain(text: string, rest: string, r: Pattern)
    requires Unquoted(text)
    ensures ReplaceTokens(text + rest, r) == text + ReplaceTokens(rest, r)
  {
    hide ReplaceTokens;
    if text == "" {
      assert text + rest == rest && "" + ReplaceTokens(rest, r) == ReplaceTokens(rest, r);
    } else {
      assert text[0] in text;
      forall c | c in text[1..] ensures !IsQuote(c) { assert c in text; }
      ReplacePlain(text[1..], rest, r);
      ReplaceOther(text[0], text[1..] + rest, r);
      assert text + rest == [text[0]] + (text[1..] + rest);
      assert text + ReplaceTokens(rest, r) == [text[0]] + (text[1..] + ReplaceTokens(rest, r));
    }
  }

  lemma JoinDelimited(tail: seq<Piece>)
    requires ProperPieces(tail)
    ensures Delimited(JoinPieces(tail)) &&
            (tail != [] ==> JoinPieces(tail) != "" && JoinPieces(tail)[0] == tail[0].quote)
  {
  }

  /** One step of the scan, at a quote. */
  lemma ReplaceAtQuote(quote: char, text: string, rest: string, r: Pattern)
    requires IsQuote(quote) && Unquoted(text) && Delimited(rest) && Plain(r.from)
    ensures ReplaceTokens([quote] + text + rest, r) ==
            if rest != "" && rest[0] == quote && Names(text, r.from)
            then [quote] + (r.to + text[|r.from|..]) + [quote] + ReplaceTokens(rest[1..], r)
            else [quote] + text + ReplaceTokens(rest, r)
  {
    hide ReplaceTokens, TokenLength, Unquoted, Plain, Delimited, Names, StartsWith;
    var s := [quote] + text + rest;
    TokenMeaning(quote, text, rest, r.from);
    ReplaceStep(s, r);
    Slices(quote, text, rest);
    if TokenLength(s, r.from).Some? {
      assert s[1 + |r.from|..|text| + 1] == text[|r.from|..] by { SliceText(quote, text, rest, |r.from|); }
      Regroup([quote], r.to, text[|r.from|..], [quote]);
    } else {
      ReplacePlain(text, rest, r);
      Regroup([], [quote], text, ReplaceTokens(rest, r));
    }
  }

  lemma Slices(quote: char, text: string, rest: string)
    ensures var s := [quote] + text + rest;
            s[1..] == text + rest && (rest != "" ==> s[|text| + 2..] == rest[1..]) && s[0] == quote
  {
  }

  lemma SliceText(quote: char, text: string, rest: string, n: nat)
    requires n <= |text|
    ensures ([quote] + text + rest)[1 + n..|text| + 1] == text[n..]
  {
  }

  lemma Regroup(a: string, b: string, c: string, d: string)
    ensures a + (b + c) + d == a + b + c + d && a + (b + (c + d)) == a + b + c + d
    ensures [] + b + c + d == b + c + d && b + c + d == b + (c + d)
  {
  }

  lemma ReplaceStep(s: string, r: Pattern)
    requires s != ""
    ensures var n := TokenLength(s, r.from);
            ReplaceTokens(s, r) ==
            if n.Some? then [s[0]] + r.to + s[1 + |r.from|..n.value - 1] + [s[0]] + ReplaceTokens(s[n.value..], r)
            else [s[0]] + ReplaceTokens(s[1..], r)
  {
    hide TokenLength;
  }

  /** Replacing tokens in the raw line is one pass over its pieces. */
  lemma {:induction false} ReplacePieces(tail: seq<Piece>, r: Pattern)
    requires ProperPieces(tail) && Plain(r.from)
    ensures ReplaceTokens(JoinPieces(tail), r) == JoinPieces(Pass(tail, r))
    decreases |tail|
  {
    if tail != [] {
      hide ReplaceTokens, Names;
      var p, rest := tail[0], JoinPieces(tail[1..]);
      JoinDelimited(tail[1..]);
      ReplaceAtQuote(p.quote, p.text, rest, r);
      if |tail| == 1 {
        ReplaceNothing(r);
        assert Pass(tail, r) == tail && rest == "";
      } else if TokenAt(tail, 0, r.from) {
        ReplacePieces(tail[2..], r);
        ReplacedPair(tail, r);
      } else {
        ReplacePieces(tail[1..], r);
        JoinOne(p, Pass(tail[1..], r));
      }
    }
  }

  lemma ReplaceNothing(r: Pattern)
    ensures ReplaceTokens("", r) == ""
  {
  }

  lemma ReplacedPair(tail: seq<Piece>, r: Pattern)
    requires ProperPieces(tail) && TokenAt(tail, 0, r.from)
    requires ReplaceTokens(JoinPieces(tail[2..]), r) == JoinPieces(Pass(tail[2..], r))
    ensures var p, rest := tail[0], JoinPieces(tail[1..]);
            && rest != ""
            && [p.quote] + (r.to + p.text[|r.from|..]) + [p.quote] + ReplaceTokens(rest[1..], r) ==
               JoinPieces(Pass(tail, r))
  {
    PassTwo(tail, r);
    hide ReplaceTokens, JoinPieces, Pass, Names, StartsWith, Unquoted;
    var p, q, after := tail[0], tail[1], JoinPieces(tail[2..]);
    assert tail[1..] == [q] + tail[2..];
    JoinAfterQuote(q, tail[2..]);
    ReplacePlain(q.text, after, r);
    JoinTwo(Renamed(p, r), q, Pass(tail[2..], r));
  }

  lemma JoinAfterQuote(q: Piece, more: seq<Piece>)
    ensures JoinPieces([q] + more) != "" && JoinPieces([q] + more)[1..] == q.text + JoinPieces(more)
  {
    hide JoinPieces;
    JoinOne(q, more);
  }

  lemma PassTwo(tail: seq<Piece>, r: Pattern)
    requires TokenAt(tail, 0, r.from)
    ensures Pass(tail, r) == [Renamed(tail[0], r), tail[1]] + Pass(tail[2..], r) && tail[0].quote == tail[1].quote
  {
  }

  lemma JoinOne(p: Piece, tail: seq<Piece>)
    ensures JoinPieces([p] + tail) == [p.quote] + p.text + JoinPieces(tail)
  {
    assert ([p] + tail)[1..] == tail;
  }

  lemma JoinTwo(p: Piece, q: Piece, tail: seq<Piece>)
    ensures JoinPieces([p, q] + tail) == [p.quote] + p.text + [q.quote] + (q.text + JoinPieces(tail))
  {
    JoinOne(p, [q] + tail);
    JoinOne(q, tail);
    assert [p, q] + tail == [p] + ([q] + tail);
  }

  lemma PassProper(tail: seq<Piece>, r: Pattern)
    requires ProperPieces(tail) && Plain(r.to)
    ensures ProperPieces(Pass(tail, r))
  {
    forall k | 0 <= k < |tail| ensures IsQuote(Pass(tail, r)[k].quote) && Unquoted(Pass(tail, r)[k].text) {
      PassExact(tail, r, k);
    }
  }

  // ----- the name entry on the text before the first quote -----

  lemma SpaceRunUnique(s: string, n: nat)
    requires n <= |s| && (n < |s| ==> !IsSpace(s[n])) && forall i :: 0 <= i < n ==> IsSpace(s[i])
    ensures SpaceRun(s) == n
  {
  }

  lemma BlankRunUnique(s: string, n: nat)
    requires n <= |s| && (n < |s| ==> !IsBlank(s[n])) && forall i :: 0 <= i < n ==> IsBlank(s[i])
    ensures BlankRun(s) == n
  {
  }

  /** s[from..] and t[from..] begin with the same n characters. */
  predicate Agree(s: string, t: string, n: nat) {
    n <= |s| && n <= |t| && s[..n] == t[..n]
  }

  lemma AgreeAt(s: string, t: string, n: nat, i: nat)
    requires Agree(s, t, n) && i < n
    ensures s[i] == t[i]
  {
    assert s[..n][i] == t[..n][i];
  }

  lemma KeyStartAgrees(s: string, t: string, n: nat)
    requires Agree(s, t, n) && KeyStart(s) < n
    ensures KeyStart(t) == KeyStart(s)
  {
    forall i | 0 <= i < n ensures s[i] == t[i] { AgreeAt(s, t, n, i); }
    var i := SpaceRun(s);
    SpaceRunUnique(t, i);
    if i < |s| && s[i] == '-' {
      var a, b := s[i + 1..], t[i + 1..];
      var k := SpaceRun(a);
      assert forall j :: 0 <= j < k ==> b[j] == a[j];
      assert b[k] == a[k];
      SpaceRunUnique(b, k);
    }
  }

  /** Where the value begins depends on the characters before it alone. */
  lemma ValueStartAgrees(s: string, t: string, v: nat)
    requires ValueStart(s) == Some(v) && Agree(s, t, v) && (v < |t| ==> !IsBlank(t[v]))
    ensures ValueStart(t) == Some(v)
  {
    hide KeyStart, StartsWith, Agree, BlankRun;
    var k := KeyStart(s);
    StartsLength(s[k..], "name:");
    KeyStartAgrees(s, t, v);
    AgreeAfter(s, t, v, k);
    AgreeAfter(s, t, v, k + 5);
    AgreeStarts(s[k..], t[k..], v - k, "name:");
    BlanksAgree(s[k + 5..], t[k + 5..], v - (k + 5));
  }

  lemma AgreeAfter(s: string, t: string, n: nat, k: nat)
    requires Agree(s, t, n) && k <= n
    ensures k <= |s| && k <= |t| && Agree(s[k..], t[k..], n - k)
    ensures n < |t| ==> n - k < |t[k..]| && t[k..][n - k] == t[n]
  {
    assert s[k..][..n - k] == s[..n][k..];
    assert t[k..][..n - k] == t[..n][k..];
  }

  lemma AgreeStarts(x: string, y: string, n: nat, prefix: string)
    requires Agree(x, y, n) && |prefix| <= n
    ensures StartsWith(x, prefix) <==> StartsWith(y, prefix)
  {
    assert x[..|prefix|] == x[..n][..|prefix|];
    assert y[..|prefix|] == y[..n][..|prefix|];
  }

  lemma BlanksAgree(x: string, y: string, n: nat)
    requires Agree(x, y, n) && BlankRun(x) == n && (n < |y| ==> !IsBlank(y[n]))
    ensures BlankRun(y) == n
  {
    forall i | 0 <= i < n ensures IsBlank(y[i]) { AgreeAt(x, y, n, i); }
    BlankRunUnique(y, n);
  }

  /** The characters before the value: white space, a dash, the key. None is a quote. */
  lemma BeforeValue(s: string, v: nat, i: nat)
    requires ValueStart(s) == Some(v) && i < v
    ensures !IsQuote(s[i])
  {
    var k := KeyStart(s);
    if k <= i < k + 5 {
      assert s[i] == s[k..][i - k] == s[k..][..5][i - k];
    } else if i >= k + 5 {
      assert s[i] == s[k + 5..][i - (k + 5)];
    }
  }

  lemma EndsValueLocal(text: string, rest: string)
    requires Delimited(rest)
    ensures EndsValue(text + rest, true) <==> EndsValue(text, rest == "")
  {
    var k := BlankRun(text);
    var s := text + rest;
    assert forall i :: 0 <= i < |text| ==> s[i] == text[i];
    if rest != "" { assert s[|text|] == rest[0]; }
    BlankRunUnique(s, k);
  }

  /** A match never reaches past the first quote, except into a comment. */
  lemma NameLocal(head: string, rest: string, name: string)
    requires Unquoted(head) && Delimited(rest) && Plain(name)
    ensures NameAt(head + rest, true, name) <==> NameAt(head, rest == "", name)
    ensures NameAt(head, rest == "", name) ==> ValueStart(head + rest) == ValueStart(head)
  {
    hide ValueStart, NameAt, Unquoted, Plain, Delimited, ThereName;
    ValueLocal(head, rest);
    NameAtMeaning(head + rest, true, name);
    NameAtMeaning(head, rest == "", name);
    if ValueStart(head).Some? {
      var v := ValueStart(head).value;
      assert (head + rest)[v..] == head[v..] + rest;
      ThereNameLocal(head[v..], rest, name);
    }
  }

  /** The text begins with the name and the value ends with it. */
  predicate ThereName(text: string, closed: bool, name: string) {
    StartsWith(text, name) && EndsValue(text[|name|..], closed)
  }

  lemma NameAtMeaning(s: string, closed: bool, name: string)
    ensures var v := ValueStart(s); NameAt(s, closed, name) <==> v.Some? && ThereName(s[v.value..], closed, name)
  {
    hide ValueStart, EndsValue;
    var v := ValueStart(s);
    if v.Some? && StartsWith(s[v.value..], name) { assert s[v.value..][|name|..] == s[v.value + |name|..]; }
  }

  lemma ThereNameLocal(text: string, rest: string, name: string)
    requires Delimited(rest) && Plain(name)
    ensures ThereName(text + rest, true, name) <==> ThereName(text, rest == "", name)
  {
    hide Plain, Delimited, EndsValue;
    TextStarts(text, rest, name);
    if StartsWith(text, name) {
      assert (text + rest)[|name|..] == text[|name|..] + rest;
      EndsValueLocal(text[|name|..], rest);
    }
  }

  lemma ValueLocal(head: string, rest: string)
    requires Unquoted(head) && Delimited(rest)
    ensures ValueStart(head + rest) == ValueStart(head)
  {
    var s := head + rest;
    if ValueStart(head).Some? {
      var v := ValueStart(head).value;
      assert s[..v] == head[..v];
      assert v < |s| ==> s[v] == if v < |head| then head[v] else rest[0];
      ValueStartAgrees(head, s, v);
    } else if ValueStart(s).Some? {
      var v := ValueStart(s).value;
      if v > |head| {
        BeforeValue(s, v, |head|);
      } else {
        assert s[..v] == head[..v];
        assert v < |head| ==> head[v] == s[v];
        ValueStartAgrees(s, head, v);
      }
    }
  }

  lemma ReplaceNameLocal(head: string, rest: string, r: Pattern)
    requires Unquoted(head) && Delimited(rest) && Plain(r.from)
    ensures ReplaceName(head + rest, true, r) == ReplaceName(head, rest == "", r) + rest
  {
    hide NameAt, ValueStart, Unquoted, Plain, Delimited, Patch, ReplaceName;
    NameLocal(head, rest, r.from);
    ReplaceNameMeaning(head + rest, true, r);
    ReplaceNameMeaning(head, rest == "", r);
    if NameAt(head, rest == "", r.from) {
      var v := ValueStart(head).value;
      PatchLocal(head, rest, v, v + |r.from|, r.to);
    }
  }

  lemma ReplaceNameMeaning(s: string, closed: bool, r: Pattern)
    ensures if NameAt(s, closed, r.from) then
              var v := ValueStart(s);
              v.Some? && v.value + |r.from| <= |s| &&
                ReplaceName(s, closed, r) == Patch(s, v.value, v.value + |r.from|, r.to)
            else ReplaceName(s, closed, r) == s
  {
    hide ValueStart, Patch, EndsValue;
    if NameAt(s, closed, r.from) { StartsLength(s[ValueStart(s).value..], r.from); }
  }

  lemma PatchLocal(head: string, rest: string, v: nat, w: nat, value: string)
    requires v <= w <= |head|
    ensures Patch(head + rest, v, w, value) == Patch(head, v, w, value) + rest
  {
    assert (head + rest)[..v] == head[..v] && (head + rest)[w..] == head[w..] + rest;
    assert head[..v] + value + (head[w..] + rest) == head[..v] + value + head[w..] + rest;
  }

  lemma PatchBack(s: string, v: nat, w: nat, value: string)
    requires v <= w <= |s|
    ensures var t := Patch(s, v, w, value);
            && |t| == v + |value| + (|s| - w)
            && t[..v] == s[..v] && t[v..] == value + s[w..] && t[v + |value|..] == s[w..]
            && Patch(t, v, v + |value|, s[v..w]) == s
  {
  }

  /** At most one name stands at a place. */
  lemma NameUnique(s: string, closed: bool, a: string, b: string)
    requires NameAt(s, closed, a) && NameAt(s, closed, b) && Plain(a) && Plain(b)
    ensures a == b
  {
    var t := s[ValueStart(s).value..];
    if |a| < |b| {
      NameEnds(s, closed, a, b);
    } else if |b| < |a| {
      NameEnds(s, closed, b, a);
    } else {
      assert t[..|a|] == t[..|b|];
    }
  }

  lemma NameEnds(s: string, closed: bool, a: string, b: string)
    requires NameAt(s, closed, a) && Plain(b) && |a| < |b|
    ensures !NameAt(s, closed, b)
  {
    var v := ValueStart(s).value;
    var rest := s[v + |a|..];
    PlainInside(s[v..], b, |a|);
    assert rest != "" ==> rest[0] == s[v..][|a|];
  }

  lemma PlainInside(t: string, name: string, i: nat)
    requires Plain(name) && i < |name|
    ensures StartsWith(t, name) ==> i < |t| && !IsBlank(t[i]) && t[i] != '#'
  {
    assert name[i] in name;
    assert StartsWith(t, name) ==> t[..|name|][i] == name[i];
  }

  /** After a replacement the new name stands where the old one stood. */
  lemma NameReplaced(s: string, closed: bool, r: Pattern)
    requires NameAt(s, closed, r.from) && Plain(r.from) && Plain(r.to)
    ensures NameAt(ReplaceName(s, closed, r), closed, r.to)
    ensures ReplaceName(ReplaceName(s, closed, r), closed, Pattern(r.to, r.from)) == s
  {
    hide ValueStart, Plain, EndsValue, Patch, NameAt, ReplaceName, StartsWith;
    ReplaceNameMeaning(s, closed, r);
    var v := ValueStart(s).value;
    NameStands(s, closed, r.from, v);
    PatchBack(s, v, v + |r.from|, r.to);
    var rest := s[v + |r.from|..];
    var t := Patch(s, v, v + |r.from|, r.to);
    FirstPlain(r.to, rest);
    assert t[v..][0] == t[v];
    ValueStartAgrees(s, t, v);
    NewStands(t, closed, r.to, v, rest);
    ReplaceNameMeaning(t, closed, Pattern(r.to, r.from));
  }

  /** Where a name stands: the name, and an end of the value after it. */
  lemma NameStands(s: string, closed: bool, name: string, v: nat)
    requires NameAt(s, closed, name) && ValueStart(s) == Some(v)
    ensures v + |name| <= |s| && s[v..v + |name|] == name && EndsValue(s[v + |name|..], closed)
  {
    hide ValueStart, EndsValue;
    StartsLength(s[v..], name);
    assert s[v..v + |name|] == s[v..][..|name|];
  }

  lemma NewStands(t: string, closed: bool, name: string, v: nat, rest: string)
    requires ValueStart(t) == Some(v) && v + |name| <= |t| && t[v..] == name + rest && t[v + |name|..] == rest &&
             EndsValue(rest, closed)
    ensures NameAt(t, closed, name)
  {
    hide ValueStart, EndsValue;
    assert (name + rest)[..|name|] == name;
  }

  lemma FirstPlain(name: string, rest: string)
    requires Plain(name)
    ensures name + rest != "" && !IsBlank((name + rest)[0])
  {
    assert name[0] in name;
  }

  function FoldHead(head: string, closed: bool, all: seq<Pattern>): string {
    if all == [] then head else ReplaceName(FoldHead(head, closed, all[..|all| - 1]), closed, all[|all| - 1])
  }

  /** In whatever order the patterns run, the one whose name stands in the entry acts, once. */
  lemma {:induction false} FoldHeadExact(head: string, closed: bool, all: seq<Pattern>)
    requires PlainTable(all)
    ensures forall r :: r in all && NameAt(head, closed, r.from) ==>
            FoldHead(head, closed, all) == ReplaceName(head, closed, r)
    ensures (forall r :: r in all ==> !NameAt(head, closed, r.from)) ==> FoldHead(head, closed, all) == head
    decreases |all|
  {
    if all != [] {
      var n := |all| - 1;
      var last := all[n];
      CleanInit(all);
      assert all == all[..n] + [last];
      FoldHeadExact(head, closed, all[..n]);
      hide NameAt, ReplaceName, Plain;
      var before := FoldHead(head, closed, all[..n]);
      forall r | r in all && NameAt(head, closed, r.from)
        ensures ReplaceName(before, closed, last) == ReplaceName(head, closed, r)
      {
        FoldHeadStep(head, closed, all, r, before);
      }
      if forall r :: r in all ==> !NameAt(head, closed, r.from) {
        assert forall r :: r in all[..n] ==> r in all;
        ReplaceNothingHead(head, closed, last);
      }
    }
  }

  lemma ReplaceNothingHead(head: string, closed: bool, r: Pattern)
    ensures !NameAt(head, closed, r.from) ==> ReplaceName(head, closed, r) == head
  {
  }

  lemma FoldHeadStep(head: string, closed: bool, all: seq<Pattern>, r: Pattern, before: string)
    requires all != [] && PlainTable(all) && r in all && NameAt(head, closed, r.from)
    requires forall q :: q in all[..|all| - 1] && NameAt(head, closed, q.from) ==>
             before == ReplaceName(head, closed, q)
    requires (forall q :: q in all[..|all| - 1] ==> !NameAt(head, closed, q.from)) ==> before == head
    ensures ReplaceName(before, closed, all[|all| - 1]) == ReplaceName(head, closed, r)
  {
    hide NameAt, ReplaceName, Plain;
    var n := |all| - 1;
    var last := all[n];
    CleanInit(all);
    assert all == all[..n] + [last];
    if r in all[..n] {
      NameReplaced(head, closed, r);
      if NameAt(before, closed, last.from) { NameUnique(before, closed, r.to, last.from); }
      ReplaceNothingHead(before, closed, last);
    } else {
      forall q | q in all[..n] ensures !NameAt(head, closed, q.from) {
        if NameAt(head, closed, q.from) { NameUnique(head, closed, q.from, last.from); }
      }
    }
  }

  /** The reverse mode undoes the entry if no new name stood there. */
  lemma FoldHeadReverses(head: string, closed: bool, all: seq<Pattern>, back: seq<Pattern>)
    requires PlainTable(all) && PlainTable(back) && Reverses(back, all)
    requires forall r :: r in all ==> !NameAt(head, closed, r.to)
    ensures FoldHead(FoldHead(head, closed, all), closed, back) == head
  {
    hide NameAt, ReplaceName, Plain;
    FoldHeadExact(head, closed, all);
    if r :| r in all && NameAt(head, closed, r.from) {
      NameReplaced(head, closed, r);
      var b := Pattern(r.to, r.from);
      assert b in back;
      FoldHeadExact(ReplaceName(head, closed, r), closed, back);
      assert NameAt(ReplaceName(head, closed, r), closed, b.from);
    } else {
      FoldHeadExact(head, closed, back);
      forall b | b in back ensures !NameAt(head, closed, b.from) { assert Pattern(b.to, b.from) in all; }
    }
  }

  /** Rewriting the entry again changes nothing. */
  lemma FoldHeadIdempotent(head: string, closed: bool, all: seq<Pattern>)
    requires PlainTable(all)
    ensures FoldHead(FoldHead(head, closed, all), closed, all) == FoldHead(head, closed, all)
    ensures FoldHead(head, closed, all) == head <==> forall r :: r in all ==> !NameAt(head, closed, r.from)
  {
    hide NameAt, ReplaceName, Plain;
    FoldHeadExact(head, closed, all);
    if r :| r in all && NameAt(head, closed, r.from) {
      NameReplaced(head, closed, r);
      var once := ReplaceName(head, closed, r);
      forall q | q in all ensures !NameAt(once, closed, q.from) {
        if NameAt(once, closed, q.from) { NameUnique(once, closed, r.to, q.from); }
      }
      FoldHeadExact(once, closed, all);
    }
  }
}
