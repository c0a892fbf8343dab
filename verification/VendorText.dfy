/** `rescope-vendor`: what the two replacements do to raw text, said by the texts they match. */
module VendorText {
  import opened Basics
  import opened Text
  import opened VendorRename
  import opened VendorRewrite
  import opened VendorStretches
  import opened VendorLines

  // ----- the quoted token -----

  ghost predicate QuoteMark(q: char) {
    q == '\'' || q == '"' || q == '`'
  }

  /** Nothing, or a slash and more without quotes and white space. */
  ghost predicate SubPath(path: string) {
    path == "" || (path[0] == '/' && forall i :: 0 <= i < |path| ==> !QuoteMark(path[i]) && !IsSpace(path[i]))
  }

  /** s begins with the name, or a path below it, between two equal quotes. */
  ghost predicate TokenThere(s: string, name: string, q: char, path: string, rest: string) {
    QuoteMark(q) && SubPath(path) && s == [q] + name + path + [q] + rest
  }

  lemma QuoteMarks()
    ensures forall c :: IsQuote(c) <==> QuoteMark(c)
  {
  }

  lemma TokenThereExact(s: string, name: string, q: char, path: string, rest: string)
    requires TokenThere(s, name, q, path, rest)
    ensures TokenLength(s, name) == Some(|name| + |path| + 2)
  {
    QuoteMarks();
    var n := |name| + |path| + 2;
    assert s[1..1 + |name|] == name;
    assert forall i :: 1 + |name| <= i < n - 1 ==> s[i] == path[i - 1 - |name|];
    assert s[n - 1] == q;
    TokenExact(s, name, n);
  }

  lemma LengthIsThere(s: string, name: string, n: nat) returns (q: char, path: string, rest: string)
    requires TokenLength(s, name) == Some(n)
    ensures TokenThere(s, name, q, path, rest)
  {
    QuoteMarks();
    TokenExact(s, name, n);
    q, path, rest := s[0], s[1 + |name|..n - 1], s[n..];
    assert forall i :: 0 <= i < |path| ==> path[i] == s[i + 1 + |name|];
    assert s[0..1] == [q] && s[n - 1..n] == [q];
    assert s == s[0..1] + s[1..1 + |name|] + s[1 + |name|..n - 1] + s[n - 1..n] + s[n..];
  }

  /** Where a token begins, the new name takes the place of the old one, and the search goes on behind the
      token; its path and its quotes stay. */
  lemma TokenReplaced(s: string, r: Pattern, q: char, path: string, rest: string)
    requires TokenThere(s, r.from, q, path, rest)
    ensures ReplaceTokens(s, r) == [q] + r.to + path + [q] + ReplaceTokens(rest, r)
  {
    TokenThereExact(s, r.from, q, path, rest);
    var n := |r.from| + |path| + 2;
    assert s[1 + |r.from|..n - 1] == path && s[n..] == rest && s[0] == q;
  }

  /** Where no token begins, the character stays and the search goes on behind it. */
  lemma NoTokenKept(s: string, r: Pattern)
    requires s != "" && forall q, path, rest :: !TokenThere(s, r.from, q, path, rest)
    ensures ReplaceTokens(s, r) == [s[0]] + ReplaceTokens(s[1..], r)
  {
    if TokenLength(s, r.from).Some? {
      var q, path, rest := LengthIsThere(s, r.from, TokenLength(s, r.from).value);
      assert false;
    }
  }

  // ----- the YAML name -----

  ghost predicate AllSpace(s: string) {
    forall i :: 0 <= i < |s| ==> IsSpace(s[i])
  }

  ghost predicate AllBlank(s: string) {
    forall i :: 0 <= i < |s| ==> s[i] == ' ' || s[i] == '\t'
  }

  /** White space, perhaps a dash and more white space, the key, and at least one blank. */
  ghost predicate KeyParts(before: string, lead: string, dash: string, blanks: string) {
    && before == lead + dash + "name:" + blanks
    && AllSpace(lead) && (dash == "" || (dash[0] == '-' && AllSpace(dash[1..])))
    && blanks != "" && AllBlank(blanks)
  }

  /** Blanks to the end of the line, or blanks and a comment. */
  ghost predicate TailParts(tail: string, closed: bool, blanks: string, comment: string) {
    && tail == blanks + comment && AllBlank(blanks)
    && if comment == "" then closed else comment[0] == '#'
  }

  ghost predicate KeyText(before: string) {
    exists lead, dash, blanks :: KeyParts(before, lead, dash, blanks)
  }

  ghost predicate TailText(tail: string, closed: bool) {
    exists blanks, comment :: TailParts(tail, closed, blanks, comment)
  }

  /** s is a `name:` entry for this name: what stands before the name, the name, and what follows. */
  ghost predicate NameEntry(s: string, closed: bool, name: string, before: string, tail: string) {
    s == before + name + tail && KeyText(before) && TailText(tail, closed)
  }

  lemma RunOfSpaces(lead: string, rest: string)
    requires AllSpace(lead) && (rest != "" ==> !IsSpace(rest[0]))
    ensures SpaceRun(lead + rest) == |lead| && (lead + rest)[|lead|..] == rest
  {
    var s := lead + rest;
    assert forall i :: 0 <= i < |lead| ==> s[i] == lead[i];
    assert rest != "" ==> s[|lead|] == rest[0];
    SpaceRunUnique(s, |lead|);
  }

  lemma {:induction false} RunOfBlanks(blanks: string, rest: string)
    requires AllBlank(blanks) && (rest != "" ==> !IsBlank(rest[0]))
    ensures BlankRun(blanks + rest) == |blanks| && (blanks + rest)[|blanks|..] == rest
  {
    if blanks == "" {
      assert blanks + rest == rest;
    } else {
      assert (blanks + rest)[1..] == blanks[1..] + rest;
      RunOfBlanks(blanks[1..], rest);
    }
  }

  lemma KeyThere(lead: string, dash: string, more: string)
    requires AllSpace(lead) && (dash == "" || (dash[0] == '-' && AllSpace(dash[1..])))
    ensures KeyStart(lead + dash + ("name:" + more)) == |lead + dash|
  {
    var key := "name:" + more;
    var s := lead + dash + key;
    assert !IsSpace('n') && !IsSpace('-') && key[0] == 'n';
    assert s == lead + (dash + key);
    RunOfSpaces(lead, dash + key);
    if dash != "" {
      assert dash + key == [dash[0]] + (dash[1..] + key);
      assert s[|lead| + 1..] == dash[1..] + key;
      RunOfSpaces(dash[1..], key);
    } else {
      assert dash + key == key;
    }
  }

  /** An entry is found, and the new name stands in it where the old one stood. */
  lemma EntryReplaced(s: string, closed: bool, r: Pattern, before: string, tail: string)
    requires Plain(r.from) && NameEntry(s, closed, r.from, before, tail)
    ensures NameAt(s, closed, r.from) && ReplaceName(s, closed, r) == before + r.to + tail
  {
    hide ValueStart, EndsValue, KeyText, TailText, Plain;
    var v := |before|;
    KeyStarts(s, r.from, before, tail);
    TailEnds(tail, closed);
    assert s[v..] == r.from + tail && s[v + |r.from|..] == tail && s[..v] == before;
  }

  lemma TailEnds(tail: string, closed: bool)
    requires TailText(tail, closed)
    ensures EndsValue(tail, closed)
  {
    var blanks, comment :| TailParts(tail, closed, blanks, comment);
    assert !IsBlank('#');
    RunOfBlanks(blanks, comment);
  }

  lemma KeyStarts(s: string, name: string, before: string, tail: string)
    requires Plain(name) && KeyText(before) && s == before + name + tail
    ensures ValueStart(s) == Some(|before|)
  {
    var lead, dash, blanks :| KeyParts(before, lead, dash, blanks);
    EntryStart(s, lead, dash, blanks, name, tail);
  }

  lemma NameBegins(name: string, tail: string)
    requires Plain(name)
    ensures name + tail != "" && !IsBlank((name + tail)[0])
  {
    var c := name[0];
    assert c in name;
  }

  lemma EntryStart(s: string, lead: string, dash: string, blanks: string, name: string, tail: string)
    requires Plain(name) && KeyParts(lead + dash + "name:" + blanks, lead, dash, blanks)
    requires s == lead + dash + "name:" + blanks + name + tail
    ensures ValueStart(s) == Some(|lead + dash + "name:" + blanks|)
  {
    hide KeyStart, BlankRun, Plain;
    var more := blanks + (name + tail);
    var k := |lead + dash|;
    assert s == lead + dash + ("name:" + more);
    KeyThere(lead, dash, more);
    assert s[k..] == "name:" + more && s[k + 5..] == more;
    NameBegins(name, tail);
    RunOfBlanks(blanks, name + tail);
  }

  lemma CutIn(s: string, i: nat, part: string)
    requires i <= |s| && StartsWith(s[i..], part)
    ensures i + |part| <= |s| && s == s[..i] + part + s[i + |part|..] && s[i..][|part|..] == s[i + |part|..]
  {
    assert s[i..][..|part|] == part;
  }

  lemma FoundIsEntry(s: string, closed: bool, name: string) returns (before: string, tail: string)
    requires NameAt(s, closed, name)
    ensures NameEntry(s, closed, name, before, tail)
  {
    hide ValueStart, EndsValue, StartsWith, KeyText, TailText;
    var v := ValueStart(s).value;
    CutIn(s, v, name);
    before, tail := s[..v], s[v + |name|..];
    FoundKey(s);
    FoundTail(tail, closed);
  }

  lemma FoundTail(tail: string, closed: bool)
    requires EndsValue(tail, closed)
    ensures TailText(tail, closed)
  {
    var k := BlankRun(tail);
    assert tail == tail[..k] + tail[k..];
    assert TailParts(tail, closed, tail[..k], tail[k..]);
  }

  lemma FoundKey(s: string)
    requires ValueStart(s).Some?
    ensures KeyText(s[..ValueStart(s).value])
  {
    hide KeyStart, StartsWith, AllSpace, KeyText;
    var k := KeyStart(s);
    CutIn(s, k, "name:");
    var lead, dash := FoundLead(s);
    KeyJoined(s, lead, dash, s[k + 5..], BlankRun(s[k + 5..]));
  }

  lemma KeyJoined(s: string, lead: string, dash: string, rest: string, n: nat)
    requires s == lead + dash + "name:" + rest && 0 < n <= |rest| && AllBlank(rest[..n])
    requires AllSpace(lead) && (dash == "" || (dash[0] == '-' && AllSpace(dash[1..])))
    ensures var k := |lead + dash| + 5; k + n <= |s| && KeyText(s[..k + n])
  {
    hide AllSpace, AllBlank;
    var k := |lead + dash| + 5;
    assert s[..k + n] == lead + dash + "name:" + rest[..n];
    assert KeyParts(s[..k + n], lead, dash, rest[..n]);
  }

  lemma FoundLead(s: string) returns (lead: string, dash: string)
    ensures s[..KeyStart(s)] == lead + dash && AllSpace(lead)
    ensures dash == "" || (dash[0] == '-' && AllSpace(dash[1..]))
  {
    hide IsSpace;
    var k, i := KeyStart(s), SpaceRun(s);
    lead, dash := s[..i], s[i..k];
    assert s[..k] == lead + dash;
    if dash != "" {
      var m := SpaceRun(s[i + 1..]);
      assert dash[1..] == s[i + 1..][..m];
    }
  }

  /** A text is left alone exactly if it is no entry for the name. */
  lemma NameExact(s: string, closed: bool, r: Pattern)
    requires Plain(r.from)
    ensures NameAt(s, closed, r.from) <==> exists before, tail :: NameEntry(s, closed, r.from, before, tail)
    ensures !NameAt(s, closed, r.from) ==> ReplaceName(s, closed, r) == s
  {
    if NameAt(s, closed, r.from) { var before, tail := FoundIsEntry(s, closed, r.from); }
    if before, tail :| NameEntry(s, closed, r.from, before, tail) { EntryReplaced(s, closed, r, before, tail); }
  }

  // ----- fences -----

  /** White space, then three backquotes. */
  ghost predicate FenceLine(s: string) {
    exists lead, rest :: s == lead + "```" + rest && AllSpace(lead)
  }

  lemma FenceExact(s: string)
    ensures IsFence(s) <==> FenceLine(s)
  {
    var n := SpaceRun(s);
    if IsFence(s) {
      CutIn(s, n, "```");
      assert s == s[..n] + "```" + s[n + 3..] && AllSpace(s[..n]);
    }
    if lead, rest :| s == lead + "```" + rest && AllSpace(lead) {
      assert s == lead + ("```" + rest) && !IsSpace('`') && ("```" + rest)[0] == '`';
      RunOfSpaces(lead, "```" + rest);
      assert ("```" + rest)[..3] == "```";
    }
  }
}
