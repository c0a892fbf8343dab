/** White space and lines of a text. */
module Text {

  /** The characters matched by \s. */
  predicate IsSpace(c: char) {
    c == ' ' || '\t' <= c <= '\r' || c == 0xA0 as char || c == 0x1680 as char || 0x2000 as char <= c <= 0x200A as char
    || c == 0x2028 as char || c == 0x2029 as char || c == 0x202F as char || c == 0x205F as char
    || c == 0x3000 as char || c == 0xFEFF as char
  }

  /** `source.split('\n')`. */
  function Lines(source: string): (lines: seq<string>)
    ensures |lines| >= 1 && forall l :: l in lines ==> '\n' !in l
  {
    if source == "" then [""]
    else
      var init := Lines(source[..|source| - 1]);
      var c := source[|source| - 1];
      if c == '\n' then init + [""] else init[..|init| - 1] + [init[|init| - 1] + [c]]
  }

  /** One more character begins a new line or lengthens the last one. */
  lemma LinesGrow(source: string)
    requires source != ""
    ensures var n := |source| - 1;
            var init, lines := Lines(source[..n]), Lines(source);
            var m := |init| - 1;
            && lines[..m] == init[..m]
            && if source[n] == '\n' then |lines| == m + 2 && lines[m] == init[m] && lines[m + 1] == ""
               else |lines| == m + 1 && lines[m] == init[m] + [source[n]]
  {
  }

  /** `lines.join('\n')`. */
  function Unlines(lines: seq<string>): string
    requires lines != []
  {
    if |lines| == 1 then lines[0] else Unlines(lines[..|lines| - 1]) + "\n" + lines[|lines| - 1]
  }

  lemma {:induction false} LinesPrefix(s: string, line: string)
    requires '\n' !in line
    ensures Lines(s + "\n" + line) == Lines(s) + [line]
    decreases |line|
  {
    var t := s + "\n" + line;
    if line == "" {
      assert t[..|t| - 1] == s;
    } else {
      var n := |line| - 1;
      assert t[..|t| - 1] == s + "\n" + line[..n];
      LinesPrefix(s, line[..n]);
      assert line[n] in line;
      assert line == line[..n] + [line[n]];
    }
  }

  lemma {:induction false} LinesOne(line: string)
    requires '\n' !in line
    ensures Lines(line) == [line]
  {
    if line != "" {
      var n := |line| - 1;
      LinesOne(line[..n]);
      assert line[n] in line;
      assert line == line[..n] + [line[n]];
    }
  }

  /** Splitting a text into lines and joining them are inverse to each other. */
  lemma {:induction false} LinesOfUnlines(lines: seq<string>)
    requires lines != [] && forall l :: l in lines ==> '\n' !in l
    ensures Lines(Unlines(lines)) == lines
  {
    hide Lines;
    var n := |lines| - 1;
    if n == 0 {
      LinesOne(lines[0]);
    } else {
      LinesOfUnlines(lines[..n]);
      LinesPrefix(Unlines(lines[..n]), lines[n]);
    }
  }

  lemma {:induction false} UnlinesOfLines(source: string)
    ensures Unlines(Lines(source)) == source
  {
    if source != "" {
      hide Lines, Unlines;
      var n := |source| - 1;
      var init, lines := Lines(source[..n]), Lines(source);
      UnlinesOfLines(source[..n]);
      LinesGrow(source);
      assert source == source[..n] + [source[n]];
      if source[n] == '\n' {
        assert lines == init + [""];
        UnlinesMore(init, "");
        assert source[..n] + "\n" + "" == source[..n] + "\n";
      } else {
        var m := |init| - 1;
        assert lines == init[..m] + [init[m] + [source[n]]] && init == init[..m] + [init[m]];
        UnlinesLonger(init[..m], init[m], source[n]);
      }
    } else {
      assert Unlines([""]) == "";
    }
  }

  lemma UnlinesMore(lines: seq<string>, line: string)
    requires lines != []
    ensures Unlines(lines + [line]) == Unlines(lines) + "\n" + line
  {
    assert (lines + [line])[..|lines|] == lines;
  }

  lemma UnlinesLonger(lines: seq<string>, line: string, c: char)
    ensures Unlines(lines + [line + [c]]) == Unlines(lines + [line]) + [c]
  {
    if lines != [] {
      UnlinesMore(lines, line);
      UnlinesMore(lines, line + [c]);
      hide Unlines;
      assert Unlines(lines) + "\n" + (line + [c]) == Unlines(lines) + "\n" + line + [c];
    }
  }
}
