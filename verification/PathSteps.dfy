/** `parsePath`: a schema key path such as `agents[].id` as member and element steps. */
module PathSteps {
  import opened PathLookup

  /** A member name and the number of element hops that follow it. */
  datatype Group = Group(name: string, arrays: nat)

  /** String.prototype.split('.'). */
  function Split(s: string): (r: seq<string>)
    ensures r != [] && forall seg :: seg in r ==> '.' !in seg
  {
    if s == "" then [""]
    else if s[0] == '.' then [""] + Split(s[1..])
    else
      var rest := Split(s[1..]);
      [[s[0]] + rest[0]] + rest[1..]
  }

  predicate EndsInBrackets(s: string): (b: bool)
    ensures b <==> exists init :: s == init + "[]"
  {
    assert |s| >= 2 && s[|s| - 2..] == "[]" ==> s == s[..|s| - 2] + "[]";
    |s| >= 2 && s[|s| - 2..] == "[]"
  }

  function ParseSegment(seg: string): (g: Group)
    ensures !EndsInBrackets(g.name) && ('.' !in seg ==> '.' !in g.name)
    decreases |seg|
  {
    if EndsInBrackets(seg) then
      var g := ParseSegment(seg[..|seg| - 2]);
      Group(g.name, g.arrays + 1)
    else Group(seg, 0)
  }

  function ParseSegments(segs: seq<string>): (gs: seq<Group>)
    ensures |gs| == |segs| && forall i :: 0 <= i < |gs| ==> gs[i] == ParseSegment(segs[i])
  {
    seq(|segs|, i requires 0 <= i < |segs| => ParseSegment(segs[i]))
  }

  function Hops(n: nat): (r: seq<Step>)
    ensures |r| == n && forall i :: 0 <= i < n ==> r[i] == Element
  {
    seq(n, _ => Element)
  }

  function Flatten(gs: seq<Group>): seq<Step> {
    if gs == [] then [] else [Member(gs[0].name)] + Hops(gs[0].arrays) + Flatten(gs[1..])
  }

  method ParsePath(path: string) returns (steps: seq<Step>)
    ensures steps == Flatten(ParseSegments(Split(path)))
    ensures exists gs :: gs != [] && Clean(gs) && Render(gs) == path && steps == Flatten(gs)
  {
    ParseExact(path, ParseSegments(Split(path)));
    steps := [];
    var segs := Split(path);
    ghost var gs := ParseSegments(segs);
    for i := 0 to |segs|
      invariant steps + Flatten(gs[i..]) == Flatten(gs)
    {
      var own := StepsOfSegment(segs[i]);
      FlattenStep(steps, gs, i);
      steps := steps + own;
    }
    assert gs[|segs|..] == [];
  }

  lemma FlattenStep(steps: seq<Step>, gs: seq<Group>, i: nat)
    requires i < |gs|
    ensures steps + Flatten(gs[i..]) == (steps + ([Member(gs[i].name)] + Hops(gs[i].arrays))) + Flatten(gs[i + 1..])
  {
    assert gs[i..][1..] == gs[i + 1..];
  }

  /** The body of that loop: strip the trailing `[]` pairs, then emit the member and the hops. */
  method StepsOfSegment(seg: string) returns (steps: seq<Step>)
    ensures steps == [Member(ParseSegment(seg).name)] + Hops(ParseSegment(seg).arrays)
  {
    var name, arrays := seg, 0;
    while EndsInBrackets(name)
      invariant ParseSegment(name).name == ParseSegment(seg).name
      invariant ParseSegment(name).arrays + arrays == ParseSegment(seg).arrays
      decreases |name|
    {
      name := name[..|name| - 2];
      arrays := arrays + 1;
    }
    steps := [Member(name)];
    for k := 0 to arrays
      invariant steps == [Member(name)] + Hops(k)
    {
      assert Hops(k + 1) == Hops(k) + [Element];
      steps := steps + [Element];
    }
  }

  // ----- the paths `walkSchemaExpr` writes -----

  function Brackets(n: nat): string {
    if n == 0 then "" else Brackets(n - 1) + "[]"
  }

  /** A key path as the schema walk concatenates it: `${base}.${key}` and `${base}[]`. */
  function Render(gs: seq<Group>): string
    requires gs != []
  {
    var head := gs[0].name + Brackets(gs[0].arrays);
    if |gs| == 1 then head else head + "." + Render(gs[1..])
  }

  predicate Clean(gs: seq<Group>) {
    forall g :: g in gs ==> '.' !in g.name && !EndsInBrackets(g.name)
  }

  lemma {:induction false} SplitHead(a: string, b: string)
    requires '.' !in a
    ensures Split(a + "." + b) == [a] + Split(b)
  {
    var s := a + "." + b;
    if a == "" {
      assert s[1..] == b;
    } else {
      assert s[1..] == a[1..] + "." + b;
      SplitHead(a[1..], b);
      assert [a[0]] + a[1..] == a;
    }
  }

  lemma {:induction false} SplitWhole(a: string)
    requires '.' !in a
    ensures Split(a) == [a]
  {
    if a != "" {
      SplitWhole(a[1..]);
      assert [a[0]] + a[1..] == a;
    }
  }

  lemma {:induction false} ParseRendered(name: string, n: nat)
    requires !EndsInBrackets(name)
    ensures ParseSegment(name + Brackets(n)) == Group(name, n)
  {
    hide ParseSegment, EndsInBrackets;
    if n == 0 {
      ParsePlain(name);
    } else {
      ParseRendered(name, n - 1);
      MoreBrackets(name, n);
      ParseBracketed(name + Brackets(n - 1));
    }
  }

  lemma ParsePlain(name: string)
    requires !EndsInBrackets(name)
    ensures ParseSegment(name + Brackets(0)) == Group(name, 0)
  {
    assert name + Brackets(0) == name;
  }

  lemma MoreBrackets(name: string, n: nat)
    requires n > 0
    ensures name + Brackets(n) == (name + Brackets(n - 1)) + "[]"
  {
  }

  lemma {:induction false} NoDots(n: nat)
    ensures '.' !in Brackets(n)
  {
    if n > 0 { NoDots(n - 1); }
  }

  lemma ParseBracketed(inner: string)
    ensures EndsInBrackets(inner + "[]")
    ensures ParseSegment(inner + "[]") == Group(ParseSegment(inner).name, ParseSegment(inner).arrays + 1)
  {
    var seg := inner + "[]";
    assert seg[|seg| - 2..] == "[]" && seg[..|seg| - 2] == inner;
  }

  lemma {:induction false} ParseRender(gs: seq<Group>)
    requires gs != [] && Clean(gs)
    ensures ParseSegments(Split(Render(gs))) == gs
    decreases |gs|
  {
    hide Split, ParseSegment, EndsInBrackets, Brackets;
    var head := gs[0].name + Brackets(gs[0].arrays);
    assert gs[0] in gs;
    ParseRendered(gs[0].name, gs[0].arrays);
    NoDots(gs[0].arrays);
    if |gs| == 1 {
      SplitWhole(head);
      assert gs == [gs[0]];
      ParseFirst(head, []);
    } else {
      SplitHead(head, Render(gs[1..]));
      ParseRender(gs[1..]);
      ParseFirst(head, Split(Render(gs[1..])));
    }
  }

  lemma ParseFirst(head: string, rest: seq<string>)
    ensures ParseSegments([head] + rest) == [ParseSegment(head)] + ParseSegments(rest)
    ensures ParseSegments([]) == [] && [head] + [] == [head]
  {
    assert ([head] + rest)[1..] == rest;
  }

  lemma {:induction false} FlattenInjective(a: seq<Group>, b: seq<Group>)
    requires Flatten(a) == Flatten(b)
    ensures a == b
    decreases |a|
  {
    if a == [] || b == [] {
    } else {
      var fa, fb := Flatten(a), Flatten(b);
      assert fa[0] == Member(a[0].name) && fb[0] == Member(b[0].name);
      NextMember(a);
      NextMember(b);
      assert a[0].arrays == b[0].arrays;
      assert fa[1 + a[0].arrays..] == Flatten(a[1..]);
      assert fb[1 + b[0].arrays..] == Flatten(b[1..]);
      FlattenInjective(a[1..], b[1..]);
      assert a == [a[0]] + a[1..] && b == [b[0]] + b[1..];
    }
  }

  /** Where the first group ends in the flattened path. */
  lemma NextMember(a: seq<Group>)
    requires a != []
    ensures var f, n := Flatten(a), 1 + a[0].arrays;
            n <= |f| && (forall i :: 0 < i < n ==> f[i] == Element) && (n < |f| ==> f[n].Member?)
  {
    var f, n := Flatten(a), 1 + a[0].arrays;
    assert f[n..] == Flatten(a[1..]);
    if n < |f| { assert f[n] == f[n..][0]; }
  }

  /** Parsing a key path gives back its steps if and only if no key of it contains a dot or ends in
      a bracket pair; a schema key that does is looked up as a different path. */
  lemma PathRoundTrip(gs: seq<Group>)
    requires gs != []
    ensures Flatten(ParseSegments(Split(Render(gs)))) == Flatten(gs) <==> Clean(gs)
  {
    if Clean(gs) {
      ParseRender(gs);
    }
    var parsed := ParseSegments(Split(Render(gs)));
    if Flatten(parsed) == Flatten(gs) {
      FlattenInjective(parsed, gs);
    }
  }

  lemma {:induction false} SegmentRendered(seg: string)
    ensures var g := ParseSegment(seg); g.name + Brackets(g.arrays) == seg
    decreases |seg|
  {
    if EndsInBrackets(seg) {
      var inner := seg[..|seg| - 2];
      SegmentRendered(inner);
      var g := ParseSegment(inner);
      assert seg == inner + "[]" == g.name + (Brackets(g.arrays) + "[]");
    } else {
      assert seg + "" == seg;
    }
  }

  lemma {:induction false} SplitRendered(path: string)
    ensures Render(ParseSegments(Split(path))) == path
    decreases |path|
  {
    hide ParseSegments, Render;
    if path == "" {
      RenderOne("");
    } else if path[0] == '.' {
      SplitRendered(path[1..]);
      RenderMore("", Split(path[1..]));
      assert path == "" + "." + path[1..];
    } else {
      SplitRendered(path[1..]);
      var segs := Split(path[1..]);
      assert segs == [segs[0]] + segs[1..];
      RenderFirst(path[0], segs[0], segs[1..]);
      assert path == [path[0]] + path[1..];
    }
  }

  lemma RenderOne(seg: string)
    ensures Render(ParseSegments([seg])) == seg
  {
    SegmentRendered(seg);
  }

  lemma RenderMore(seg: string, segs: seq<string>)
    requires segs != []
    ensures Render(ParseSegments([seg] + segs)) == seg + "." + Render(ParseSegments(segs))
  {
    SegmentRendered(seg);
    ParseFirst(seg, segs);
    assert ParseSegments([seg] + segs)[1..] == ParseSegments(segs);
  }

  lemma RenderFirst(c: char, seg: string, segs: seq<string>)
    ensures Render(ParseSegments([[c] + seg] + segs)) == [c] + Render(ParseSegments([seg] + segs))
  {
    hide ParseSegments, Render;
    if segs == [] {
      assert [[c] + seg] + segs == [[c] + seg] && [seg] + segs == [seg];
      RenderOne([c] + seg);
      RenderOne(seg);
    } else {
      RenderMore([c] + seg, segs);
      RenderMore(seg, segs);
    }
  }

  /** Every path is the printed form of what it is parsed into, and of no other clean key path. */
  lemma ParseExact(path: string, gs: seq<Group>)
    requires gs != []
    ensures ParseSegments(Split(path)) == gs <==> Clean(gs) && Render(gs) == path
  {
    SplitRendered(path);
    forall g | g in ParseSegments(Split(path)) ensures '.' !in g.name && !EndsInBrackets(g.name) {
      var i :| 0 <= i < |Split(path)| && ParseSegments(Split(path))[i] == g;
      assert Split(path)[i] in Split(path);
    }
    if Clean(gs) { ParseRender(gs); }
  }
}
