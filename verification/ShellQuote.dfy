/** `formatCopyableCommand` against the shell that reads the pasted line: token recognition and
    quote removal as in sections 2.2 and 2.3 of the POSIX Shell Command Language, the reserved
    words of section 2.4 and the assignment words of section 2.10.2. */
module ShellQuote {
  import opened Basics

  // ----- the quoter -----

  predicate Letter(c: char) { 'a' <= c <= 'z' || 'A' <= c <= 'Z' }

  predicate Digit(c: char) { '0' <= c <= '9' }

  /** The class `[\w./:@=+-]`. */
  predicate BareChar(c: char) {
    Letter(c) || Digit(c) || c in "_./:@=+-"
  }

  predicate Bare(v: string) {
    v != "" && forall c :: c in v ==> BareChar(c)
  }

  /** Replace every single quote by `'"'"'`. */
  function Escape(v: string): string {
    if v == "" then ""
    else (if v[0] == '\'' then "'\"'\"'" else [v[0]]) + Escape(v[1..])
  }

  function Quote(v: string): string {
    if Bare(v) then v else "'" + Escape(v) + "'"
  }

  function Join(vs: seq<string>): string {
    if vs == [] then ""
    else if |vs| == 1 then Quote(vs[0])
    else Quote(vs[0]) + " " + Join(vs[1..])
  }

  function FormatCommand(command: string, args: seq<string>): string {
    Join([command] + args)
  }

  // ----- the shell -----

  /** A character of a word, and whether it was quoted. */
  datatype WordChar = WordChar(c: char, quoted: bool)

  type Word = seq<WordChar>

  function Mark(v: string, quoted: bool): (w: Word)
    ensures |w| == |v| && forall i :: 0 <= i < |w| ==> w[i] == WordChar(v[i], quoted)
  {
    seq(|v|, i requires 0 <= i < |v| => WordChar(v[i], quoted))
  }

  function Text(w: Word): (v: string)
    ensures |v| == |w| && forall i :: 0 <= i < |v| ==> v[i] == w[i].c
  {
    seq(|w|, i requires 0 <= i < |w| => w[i].c)
  }

  function Texts(ws: seq<Word>): (vs: seq<string>)
    ensures |vs| == |ws| && forall i :: 0 <= i < |vs| ==> vs[i] == Text(ws[i])
  {
    seq(|ws|, i requires 0 <= i < |ws| => Text(ws[i]))
  }

  /** Between words, inside a word, inside single quotes, inside double quotes. */
  datatype Mode = Between | InWord | Single | Double

  /** Unquoted, these end a word, start an expansion, a pattern or a comment, or group commands. */
  const SPECIAL := "|&;<>()$`\n*?[#~!{}"

  function EndWord(mode: Mode, word: Word, rest: Option<seq<Word>>): Option<seq<Word>> {
    match rest
    case None => None
    case Some(words) => Some(if mode == InWord then [word] + words else words)
  }

  /** Split a line into words; None when it holds more than plain words or a quote stays open. */
  function Scan(s: string, mode: Mode, word: Word): Option<seq<Word>>
    decreases |s|
  {
    if s == "" then
      match mode
      case Between => Some([])
      case InWord => Some([word])
      case _ => None
    else
      var c := s[0];
      match mode
      case Single =>
        if c == '\'' then Scan(s[1..], InWord, word) else Scan(s[1..], Single, word + [WordChar(c, true)])
      case Double =>
        if c == '"' then Scan(s[1..], InWord, word)
        else if c == '$' || c == '`' then None
        else if c == '\\' && |s| > 1 && s[1] == '\n' then Scan(s[2..], Double, word)
        else if c == '\\' && |s| > 1 && s[1] in "$`\"\\" then Scan(s[2..], Double, word + [WordChar(s[1], true)])
        else Scan(s[1..], Double, word + [WordChar(c, true)])
      case _ =>
        if c == ' ' || c == '\t' then
          EndWord(mode, word, Scan(s[1..], Between, []))
        else if c == '\'' then Scan(s[1..], Single, word)
        else if c == '"' then Scan(s[1..], Double, word)
        else if c == '\\' then
          if |s| == 1 then None
          else if s[1] == '\n' then Scan(s[2..], mode, word)
          else Scan(s[2..], InWord, word + [WordChar(s[1], true)])
        else if c in SPECIAL then None
        else Scan(s[1..], InWord, word + [WordChar(c, false)])
  }

  const RESERVED := {"!", "{", "}", "case", "do", "done", "elif", "else", "esac", "fi", "for", "if",
                     "in", "then", "until", "while"}

  predicate ReservedWord(w: Word) {
    (forall x :: x in w ==> !x.quoted) && Text(w) in RESERVED
  }

  predicate NameChar(c: char, first: bool) {
    Letter(c) || c == '_' || (!first && Digit(c))
  }

  /** An unquoted name, then an unquoted `=`. */
  predicate AssignmentWord(w: Word) {
    exists k :: 0 < k < |w| && w[k] == WordChar('=', false) &&
      forall i :: 0 <= i < k ==> !w[i].quoted && NameChar(w[i].c, i == 0)
  }

  /** The fields a line passes to the command it names, if it is a simple command with no
      assignments and no shell keyword in front. */
  function RunLine(line: string): Option<seq<string>> {
    match Scan(line, Between, [])
    case None => None
    case Some(words) =>
      if words == [] || ReservedWord(words[0]) || AssignmentWord(words[0]) then None else Some(Texts(words))
  }

  // ----- round trip -----

  function QuotedWord(v: string): Word {
    Mark(v, !Bare(v))
  }

  lemma {:induction false} ScanEscaped(v: string, tail: string, word: Word)
    ensures Scan(Escape(v) + "'" + tail, Single, word) == Scan(tail, InWord, word + Mark(v, true))
    decreases |v|
  {
    var s := Escape(v) + "'" + tail;
    if v == "" {
      assert s[1..] == tail;
      assert word + Mark(v, true) == word;
    } else {
      var rest := Escape(v[1..]) + "'" + tail;
      var next := word + [WordChar(v[0], true)];
      assert next + Mark(v[1..], true) == word + Mark(v, true);
      ScanEscaped(v[1..], tail, next);
      if v[0] == '\'' {
        assert s == "'\"'\"'" + rest;
        ScanEscapedQuote(rest, word);
      } else {
        assert s == [v[0]] + rest;
        assert s[1..] == rest;
      }
    }
  }

  /** `'"'"'` leaves the single quotes, adds a quoted single quote, and enters them again. */
  lemma ScanEscapedQuote(rest: string, word: Word)
    ensures Scan("'\"'\"'" + rest, Single, word) == Scan(rest, Single, word + [WordChar('\'', true)])
  {
    var s := "'\"'\"'" + rest;
    assert s[1..] == "\"'\"'" + rest;
    assert s[1..][1..] == "'\"'" + rest;
    assert s[1..][1..][1..] == "\"'" + rest;
    assert s[1..][1..][1..][1..] == "'" + rest;
    assert s[1..][1..][1..][1..][1..] == rest;
    var next := word + [WordChar('\'', true)];
    assert Scan("'" + rest, InWord, next) == Scan(rest, Single, next);
    assert Scan("\"'" + rest, Double, next) == Scan("'" + rest, InWord, next);
    assert Scan("'\"'" + rest, Double, word) == Scan("\"'" + rest, Double, next);
    assert Scan("\"'\"'" + rest, InWord, word) == Scan("'\"'" + rest, Double, word);
  }

  lemma {:induction false} ScanBare(v: string, tail: string, mode: Mode, word: Word)
    requires forall c :: c in v ==> BareChar(c)
    requires mode == Between || mode == InWord
    ensures Scan(v + tail, mode, word) == Scan(tail, if v == "" then mode else InWord, word + Mark(v, false))
    decreases |v|
  {
    hide Scan, BareChar;
    if v == "" {
      assert v + tail == tail && word + Mark(v, false) == word;
    } else {
      var next := word + [WordChar(v[0], false)];
      assert v + tail == [v[0]] + (v[1..] + tail);
      assert next + Mark(v[1..], false) == word + Mark(v, false);
      ScanBareChar(v[0], v[1..] + tail, mode, word);
      ScanBare(v[1..], tail, InWord, next);
    }
  }

  lemma ScanBareChar(c: char, rest: string, mode: Mode, word: Word)
    requires BareChar(c) && (mode == Between || mode == InWord)
    ensures Scan([c] + rest, mode, word) == Scan(rest, InWord, word + [WordChar(c, false)])
  {
    NotSpecial(c);
    hide BareChar;
    assert ([c] + rest)[1..] == rest;
  }

  lemma NotSpecial(c: char)
    requires BareChar(c)
    ensures c !in SPECIAL && c != ' ' && c != '\t' && c != '\'' && c != '"' && c != '\\'
  {
  }

  /** A blank ends the word. */
  lemma ScanBlank(rest: string, word: Word)
    ensures Scan(" " + rest, InWord, word) == EndWord(InWord, word, Scan(rest, Between, []))
  {
    assert (" " + rest)[1..] == rest;
  }

  lemma ScanEnd(word: Word)
    ensures Scan("", InWord, word) == Some([word]) && Scan("", Between, []) == Some([])
  {
  }

  /** Whatever the argument, its quoted form reads back as one word with its text. */
  lemma ScanQuoted(v: string, tail: string)
    ensures Scan(Quote(v) + tail, Between, []) == Scan(tail, InWord, QuotedWord(v))
  {
    if Bare(v) {
      ScanBare(v, tail, Between, []);
      assert [] + Mark(v, false) == Mark(v, false);
    } else {
      var s := "'" + (Escape(v) + "'" + tail);
      assert Quote(v) + tail == s;
      assert s[1..] == Escape(v) + "'" + tail;
      assert Scan(s, Between, []) == Scan(s[1..], Single, []);
      ScanEscaped(v, tail, []);
      assert [] + Mark(v, true) == Mark(v, true);
    }
  }

  function QuotedWords(vs: seq<string>): (ws: seq<Word>)
    ensures |ws| == |vs| && forall i :: 0 <= i < |ws| ==> ws[i] == QuotedWord(vs[i])
  {
    seq(|vs|, i requires 0 <= i < |vs| => QuotedWord(vs[i]))
  }

  lemma {:induction false} ScanJoined(vs: seq<string>)
    ensures Scan(Join(vs), Between, []) == Some(QuotedWords(vs))
    decreases |vs|
  {
    hide Scan, Quote, QuotedWord;
    if |vs| == 1 {
      ScanQuoted(vs[0], "");
      ScanEnd(QuotedWord(vs[0]));
      assert Quote(vs[0]) + "" == Quote(vs[0]);
      assert QuotedWords(vs) == [QuotedWord(vs[0])];
    } else if |vs| > 1 {
      var rest := Join(vs[1..]);
      ScanQuoted(vs[0], " " + rest);
      ScanBlank(rest, QuotedWord(vs[0]));
      assert Join(vs) == Quote(vs[0]) + (" " + rest);
      ScanJoined(vs[1..]);
      assert QuotedWords(vs) == [QuotedWord(vs[0])] + QuotedWords(vs[1..]);
    } else {
      ScanEnd([]);
    }
  }

  /** The characters that need no quotes. */
  ghost predicate PlainChar(c: char) {
    || 'a' <= c <= 'z' || 'A' <= c <= 'Z' || '0' <= c <= '9'
    || c == '_' || c == '.' || c == '/' || c == ':' || c == '@' || c == '=' || c == '+' || c == '-'
  }

  lemma BareCharExact(c: char)
    ensures BareChar(c) <==> PlainChar(c)
  {
    var more := "_./:@=+-";
    assert c in more <==> c in [more[0], more[1], more[2], more[3], more[4], more[5], more[6], more[7]];
  }

  /** Letters, digits and underscores, not a digit first; then `=`. */
  ghost predicate Assigns(command: string, name: string, value: string) {
    && command == name + "=" + value && name != ""
    && forall i :: 0 <= i < |name| ==> Letter(name[i]) || name[i] == '_' || (i > 0 && Digit(name[i]))
  }

  /** The shell would take this command, which needs no quotes, for a keyword or a variable assignment. */
  ghost predicate MisreadCommand(command: string) {
    && command != "" && (forall c :: c in command ==> PlainChar(c))
    && (command in RESERVED || exists name, value :: Assigns(command, name, value))
  }

  lemma AssignmentAt(command: string, k: nat)
    requires 0 < k < |command|
    ensures Assigns(command, command[..k], command[k + 1..]) <==>
            command[k] == '=' && forall i :: 0 <= i < k ==> NameChar(command[i], i == 0)
  {
    var name, value := command[..k], command[k + 1..];
    assert command == name + [command[k]] + value;
    assert command == name + "=" + value ==> command[k] == (name + "=" + value)[k] == '=';
  }

  lemma AssignmentExact(command: string)
    ensures AssignmentWord(Mark(command, false)) <==> exists name, value :: Assigns(command, name, value)
  {
    var w := Mark(command, false);
    if AssignmentWord(w) {
      var k :| 0 < k < |w| && w[k] == WordChar('=', false) &&
               forall i :: 0 <= i < k ==> !w[i].quoted && NameChar(w[i].c, i == 0);
      AssignmentAt(command, k);
      assert Assigns(command, command[..k], command[k + 1..]) by {
        hide Assigns, NameChar;
        assert forall i :: 0 <= i < k ==> w[i].c == command[i];
      }
    }
    if name, value :| Assigns(command, name, value) {
      var k := |name|;
      assert command[..k] == name && command[k + 1..] == value;
      AssignmentAt(command, k);
      hide Assigns, NameChar;
      assert w[k] == WordChar('=', false);
    }
  }

  lemma MisreadMeaning(command: string)
    ensures MisreadCommand(command) <==>
            Bare(command) && (command in RESERVED || AssignmentWord(Mark(command, false)))
  {
    AssignmentExact(command);
    hide AssignmentWord, Assigns, BareChar, PlainChar;
    forall c ensures BareChar(c) <==> PlainChar(c) { BareCharExact(c); }
  }

  /** Every argument list survives the trip through the shell, whatever its strings hold. The line
      runs `command` with `args` if and only if the command is not misread for what it is spelled like. */
  lemma ShellRoundTrip(command: string, args: seq<string>)
    ensures Scan(FormatCommand(command, args), Between, []) == Some(QuotedWords([command] + args))
    ensures Texts(QuotedWords([command] + args)) == [command] + args
    ensures RunLine(FormatCommand(command, args)) == Some([command] + args) <==> !MisreadCommand(command)
  {
    MisreadMeaning(command);
    hide MisreadCommand;
    var vs := [command] + args;
    ScanJoined(vs);
    var words := QuotedWords(vs);
    forall i | 0 <= i < |vs| ensures Text(words[i]) == vs[i] {
      assert words[i] == Mark(vs[i], !Bare(vs[i]));
    }
    assert words[0] == QuotedWord(command);
    if Bare(command) {
      assert Text(words[0]) == command;
    } else {
      NotMisread(command);
    }
  }

  /** A quoted command is neither a keyword nor an assignment. */
  lemma NotMisread(command: string)
    requires !Bare(command)
    ensures !ReservedWord(QuotedWord(command)) && !AssignmentWord(QuotedWord(command))
  {
    var w := QuotedWord(command);
    if command == "" {
      assert Text(w) == "";
    } else {
      assert w[0].quoted && w[0] in w;
    }
  }

  /** A command without `=` that is no shell keyword always runs as written. */
  lemma PlainCommandRuns(command: string, args: seq<string>)
    requires '=' !in command && command !in RESERVED
    ensures RunLine(FormatCommand(command, args)) == Some([command] + args)
  {
    ShellRoundTrip(command, args);
    MisreadMeaning(command);
    assert forall k :: 0 <= k < |command| ==> Mark(command, false)[k].c == command[k];
  }

  // ----- the text of the line -----

  function JoinWith(parts: seq<string>, sep: string): string
    requires parts != []
  {
    if |parts| == 1 then parts[0] else parts[0] + sep + JoinWith(parts[1..], sep)
  }

  lemma {:induction false} EscapeText(a: string, b: string)
    requires '\'' !in a
    ensures Escape(a + b) == a + Escape(b)
  {
    if a == "" {
      assert a + b == b;
    } else {
      assert a[0] in a && (a + b)[1..] == a[1..] + b;
      EscapeText(a[1..], b);
      assert [a[0]] + (a[1..] + Escape(b)) == a + Escape(b);
    }
  }

  lemma EscapeQuote(b: string)
    ensures Escape("'" + b) == "'\"'\"'" + Escape(b)
  {
    assert ("'" + b)[1..] == b;
  }

  /** An argument of plain characters stands as it is. Any other is put in single quotes, and the text
      between its own single quotes is joined with `'"'"'` instead. */
  lemma {:induction false} EscapeExact(parts: seq<string>)
    requires parts != [] && forall p :: p in parts ==> '\'' !in p
    ensures Escape(JoinWith(parts, "'")) == JoinWith(parts, "'\"'\"'")
  {
    assert parts[0] in parts && Escape("") == "";
    hide Escape;
    if |parts| == 1 {
      EscapeText(parts[0], "");
      assert parts[0] + "" == parts[0];
    } else {
      EscapeExact(parts[1..]);
      EscapeJoint(parts[0], JoinWith(parts[1..], "'"));
    }
  }

  lemma EscapeJoint(a: string, b: string)
    requires '\'' !in a
    ensures Escape(a + "'" + b) == a + "'\"'\"'" + Escape(b)
  {
    EscapeText(a, "'" + b);
    EscapeQuote(b);
    assert a + "'" + b == a + ("'" + b);
    assert a + ("'\"'\"'" + Escape(b)) == a + "'\"'\"'" + Escape(b);
  }

  lemma QuoteExact(v: string, parts: seq<string>)
    requires parts != [] && (forall p :: p in parts ==> '\'' !in p) && v == JoinWith(parts, "'")
    ensures Quote(v) == if v != "" && forall c :: c in v ==> PlainChar(c) then v
                        else "'" + JoinWith(parts, "'\"'\"'") + "'"
  {
    hide BareChar;
    forall c ensures BareChar(c) <==> PlainChar(c) { BareCharExact(c); }
    EscapeExact(parts);
  }
}
