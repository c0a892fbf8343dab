/** `collectProjectReferenceFaceViolations`: follow Project References from the two aggregates and
    report every reference that enters a split project on the wrong face. */
module ReferenceFaces {
  import opened Basics
  import opened Digraph
  import opened Packages
  import opened Sorting

  datatype Face = Host | Client

  /** A tsconfig: the local config it extends, if any, and its references, each as it is spelled
      and as the config path it resolves to. */
  datatype Config = Config(parent: Option<string>, references: seq<Target>)

  datatype Target = Target(spelling: string, path: string)

  /** The configs that exist, the faces that a path alone decides, the split project each config path
      belongs to, and the leaf of a split project on a face. */
  datatype Workspace = Workspace(
    configs: map<string, Config>,
    named: map<string, Face>,
    splitRoot: map<string, string>,
    leaf: (string, Face) -> string,
    message: (string, string, string, Option<Face>) -> string)

  // ----- faces -----

  /** `projectFace`: the face of the first config on the extends chain whose path decides one. */
  function FaceOf(w: Workspace, path: string, seen: set<string>): Option<Face>
    decreases w.configs.Keys - seen
  {
    if path in w.named then Some(w.named[path])
    else if path !in w.configs || path in seen then None
    else
      var parent := w.configs[path].parent;
      if parent.None? || parent.value !in w.configs then None
      else FaceOf(w, parent.value, seen + {path})
  }

  /** The config n steps up the extends chain, as long as the chain goes through existing configs
      whose paths do not decide a face. */
  ghost function Ancestor(w: Workspace, path: string, n: nat): Option<string>
    decreases n
  {
    if n == 0 then Some(path)
    else if path in w.named || path !in w.configs then None
    else
      var parent := w.configs[path].parent;
      if parent.None? || parent.value !in w.configs then None else Ancestor(w, parent.value, n - 1)
  }

  /** Some config up the chain decides the face, and none below it does. */
  ghost predicate Inherits(w: Workspace, path: string, face: Face) {
    exists n: nat :: Ancestor(w, path, n).Some? && Ancestor(w, path, n).value in w.named &&
      w.named[Ancestor(w, path, n).value] == face
  }

  lemma InheritsStep(w: Workspace, path: string, face: Face)
    requires path !in w.named && path in w.configs
    requires var parent := w.configs[path].parent; parent.Some? && parent.value in w.configs
    ensures Inherits(w, path, face) <==> Inherits(w, w.configs[path].parent.value, face)
  {
    var parent := w.configs[path].parent.value;
    if Inherits(w, path, face) {
      var n: nat :| Ancestor(w, path, n).Some? && Ancestor(w, path, n).value in w.named &&
          w.named[Ancestor(w, path, n).value] == face;
      assert Ancestor(w, parent, n - 1) == Ancestor(w, path, n);
    }
    if Inherits(w, parent, face) {
      var n: nat :| Ancestor(w, parent, n).Some? && Ancestor(w, parent, n).value in w.named &&
          w.named[Ancestor(w, parent, n).value] == face;
      assert Ancestor(w, path, n + 1) == Ancestor(w, parent, n);
    }
  }

  lemma {:induction false} FaceInherits(w: Workspace, path: string, seen: set<string>)
    ensures var f := FaceOf(w, path, seen); f.Some? ==> Inherits(w, path, f.value)
    decreases w.configs.Keys - seen
  {
    if path in w.named {
      assert Ancestor(w, path, 0) == Some(path);
    } else if path in w.configs && path !in seen {
      var parent := w.configs[path].parent;
      if parent.Some? && parent.value in w.configs {
        FaceInherits(w, parent.value, seen + {path});
        var f := FaceOf(w, parent.value, seen + {path});
        if f.Some? { InheritsStep(w, path, f.value); }
      }
    }
  }

  lemma {:induction false} AncestorAdds(w: Workspace, path: string, m: nat, n: nat)
    requires Ancestor(w, path, m).Some?
    ensures Ancestor(w, path, m + n) == Ancestor(w, Ancestor(w, path, m).value, n)
    decreases m
  {
    if m > 0 { AncestorAdds(w, w.configs[path].parent.value, m - 1, n); }
  }

  lemma {:induction false} AncestorPrefix(w: Workspace, path: string, m: nat, n: nat)
    requires m <= n && Ancestor(w, path, n).Some?
    ensures Ancestor(w, path, m).Some?
    decreases m
  {
    if m > 0 { AncestorPrefix(w, w.configs[path].parent.value, m - 1, n - 1); }
  }

  lemma NamedEndsChain(w: Workspace, path: string)
    requires path in w.named
    ensures Ancestor(w, path, 1) == None
  {
  }

  /** A config that decides a face ends its chain, so the chain to it never comes back to its start. */
  lemma NoReturn(w: Workspace, path: string, m: nat, n: nat)
    requires 0 < m <= n && Ancestor(w, path, n).Some? && Ancestor(w, path, n).value in w.named
    ensures Ancestor(w, path, m) != Some(path)
  {
    if Ancestor(w, path, m) == Some(path) {
      AncestorAdds(w, path, m, n - m);
      var top := Ancestor(w, path, n - m).value;
      AncestorPrefix(w, path, n - m + 1, n);
      NamedEndsChain(w, top);
      AncestorAdds(w, path, n - m, 1);
    }
  }

  lemma {:induction false} ChainDecides(w: Workspace, path: string, seen: set<string>, n: nat)
    requires Ancestor(w, path, n).Some? && Ancestor(w, path, n).value in w.named
    requires forall k :: 0 <= k <= n && Ancestor(w, path, k).Some? ==> Ancestor(w, path, k).value !in seen
    ensures FaceOf(w, path, seen) == Some(w.named[Ancestor(w, path, n).value])
    decreases n
  {
    assert Ancestor(w, path, 0) == Some(path);
    if n > 0 {
      var parent := w.configs[path].parent.value;
      forall k | 0 <= k <= n - 1 && Ancestor(w, parent, k).Some?
        ensures Ancestor(w, parent, k).value !in seen + {path}
      {
        assert Ancestor(w, parent, k) == Ancestor(w, path, k + 1);
        NoReturn(w, path, k + 1, n);
      }
      ChainDecides(w, parent, seen + {path}, n - 1);
    }
  }

  /** Cyclic `extends` chains included, a config has exactly the face it inherits. */
  lemma FaceExact(w: Workspace, path: string, face: Face)
    ensures FaceOf(w, path, {}) == Some(face) <==> Inherits(w, path, face)
  {
    FaceInherits(w, path, {});
    if Inherits(w, path, face) {
      var n: nat :| Ancestor(w, path, n).Some? && Ancestor(w, path, n).value in w.named &&
          w.named[Ancestor(w, path, n).value] == face;
      ChainDecides(w, path, {}, n);
    }
  }

  // ----- references -----

  /** A reference stays outside split projects, or enters one at the leaf of the config's own face. */
  predicate Conforms(w: Workspace, face: Option<Face>, target: string) {
    target !in w.splitRoot || (face.Some? && target == w.leaf(w.splitRoot[target], face.value))
  }

  function ConformingTargets(w: Workspace, face: Option<Face>, refs: seq<Target>): (r: seq<string>)
    ensures forall t :: t in r <==> exists k :: 0 <= k < |refs| && refs[k].path == t && Conforms(w, face, t)
  {
    if refs == [] then []
    else (if Conforms(w, face, refs[0].path) then [refs[0].path] else []) + ConformingTargets(w, face, refs[1..])
  }

  /** What is said about one reference. */
  function Said(w: Workspace, path: string, face: Option<Face>, target: Target): seq<string> {
    if Conforms(w, face, target.path) then []
    else [w.message(path, target.spelling, w.splitRoot[target.path], face)]
  }

  function Reports(w: Workspace, path: string, face: Option<Face>, refs: seq<Target>): seq<string> {
    if refs == [] then [] else Said(w, path, face, refs[0]) + Reports(w, path, face, refs[1..])
  }

  /** The edges that traversal follows. */
  function Followed(w: Workspace): Graph {
    map c | c in w.configs :: ConformingTargets(w, FaceOf(w, c, {}), w.configs[c].references)
  }

  /** The configs that conforming edges lead to from the two aggregates. */
  ghost predicate Visited(w: Workspace, starts: set<string>, c: string) {
    exists s :: s in starts && Reach(Followed(w), s, c)
  }

  function ReportsOf(w: Workspace, c: string): seq<string>
    requires c in w.configs
  {
    Reports(w, c, FaceOf(w, c, {}), w.configs[c].references)
  }

  /** The reports of a list of configs, one after the other. */
  function ReportsOfAll(w: Workspace, order: seq<string>): seq<string>
    requires forall c :: c in order ==> c in w.configs
  {
    if order == [] then []
    else
      assert order[|order| - 1] in order;
      ReportsOfAll(w, order[..|order| - 1]) + ReportsOf(w, order[|order| - 1])
  }

  /** `violations.sort()`: by code units, which tell different strings apart. */
  function SortedReports(w: Workspace, order: seq<string>, byCodeUnit: Comparator<string>): seq<string>
    requires forall c :: c in order ==> c in w.configs
  {
    Sort(ReportsOfAll(w, order), byCodeUnit)
  }

  /** The loop over one config's references. */
  method Inspect(w: Workspace, path: string, pending: seq<string>, violations: seq<string>)
    returns (pending': seq<string>, violations': seq<string>)
    requires path in w.configs
    ensures pending' == pending + ConformingTargets(w, FaceOf(w, path, {}), w.configs[path].references)
    ensures violations' == violations + ReportsOf(w, path)
  {
    hide FaceOf, ConformingTargets, Reports;
    var face, refs := FaceOf(w, path, {}), w.configs[path].references;
    pending', violations' := pending, violations;
    var i := 0;
    assert refs[0..] == refs;
    while i < |refs|
      invariant i <= |refs|
      invariant pending' + ConformingTargets(w, face, refs[i..]) == pending + ConformingTargets(w, face, refs)
      invariant violations' + Reports(w, path, face, refs[i..]) == violations + Reports(w, path, face, refs)
    {
      InspectStep(w, path, face, refs, i, pending', violations');
      var target := refs[i];
      if Conforms(w, face, target.path) {
        pending' := pending' + [target.path];
      } else {
        violations' := violations' + [w.message(path, target.spelling, w.splitRoot[target.path], face)];
      }
      i := i + 1;
    }
    InspectEnd(w, path, face, refs[i..]);
  }

  lemma InspectEnd(w: Workspace, path: string, face: Option<Face>, refs: seq<Target>)
    requires refs == []
    ensures ConformingTargets(w, face, refs) == [] && Reports(w, path, face, refs) == []
  {
  }

  lemma InspectStep(w: Workspace, path: string, face: Option<Face>, refs: seq<Target>, i: nat, p: seq<string>,
                    v: seq<string>)
    requires i < |refs|
    ensures var ok := Conforms(w, face, refs[i].path);
            && p + ConformingTargets(w, face, refs[i..])
               == (if ok then p + [refs[i].path] else p) + ConformingTargets(w, face, refs[i + 1..])
            && v + Reports(w, path, face, refs[i..])
               == (v + Said(w, path, face, refs[i])) + Reports(w, path, face, refs[i + 1..])
  {
    assert refs[i..][0] == refs[i] && refs[i..][1..] == refs[i + 1..];
    var ok := Conforms(w, face, refs[i].path);
    Reassociate(p, if ok then [refs[i].path] else [], ConformingTargets(w, face, refs[i + 1..]));
    Reassociate(v, Said(w, path, face, refs[i]), Reports(w, path, face, refs[i + 1..]));
    hide Conforms, Said;
  }

  lemma Reassociate<T>(a: seq<T>, b: seq<T>, c: seq<T>)
    ensures a + (b + c) == (a + b) + c && (b == [] ==> a + b == a)
  {
  }

  /** The order lists exactly the reached configs, each once. */
  ghost predicate Enumerates(w: Workspace, starts: seq<string>, order: seq<string>) {
    && Distinct(order)
    && (forall c :: c in order <==> Visited(w, Elements(starts), c))
    && (forall c :: c in order ==> c in w.configs)
  }

  /** The traversal: it ends on cyclic references, visits exactly the reached configs, each once, and
      returns the sorted reports of exactly those. */
  method CollectViolations(w: Workspace, starts: seq<string>, byCodeUnit: Comparator<string>) returns (r: seq<string>)
    ensures exists order :: Enumerates(w, starts, order) && r == SortedReports(w, order, byCodeUnit)
    ensures forall report :: report in r <==>
              exists c, k: nat :: c in w.configs && Reached(w, starts, c) && Mismatch(w, c, k, report)
    ensures Total(byCodeUnit) ==> Sorted(r, byCodeUnit)
  {
    hide Traversal, Visited, FaceOf, ConformingTargets, ReportsOf, Reports, Conforms, ReportsOfAll, Distinct, Elements,
         Reached, Mismatch, Total, Occasions;
    NothingVisited(w);
    var pending, violations: seq<string> := starts, [];
    var visited: set<string> := {};
    ghost var order: seq<string> := [];
    TraversalStarts(w, starts);
    while pending != []
      invariant Traversal(w, starts, pending, visited)
      invariant Distinct(order) && Elements(order) == visited && visited <= w.configs.Keys
      invariant (forall c :: c in order ==> c in w.configs) && violations == ReportsOfAll(w, order)
      decreases w.configs.Keys - visited, |pending|
    {
      var path := pending[|pending| - 1];
      ghost var before := pending;
      pending := pending[..|pending| - 1];
      assert before == pending + [path];
      if path in visited || path !in w.configs {
        TraversalSkips(w, starts, pending, path, visited);
      } else {
        TraversalVisits(w, starts, pending, path, visited);
        OrderGrows(w, order, path);
        visited := visited + {path};
        order := order + [path];
        pending, violations := Inspect(w, path, pending, violations);
      }
    }
    TraversalEnds(w, starts, visited);
    EnumeratesVisited(w, starts, order);
    r := Sort(violations, byCodeUnit);
    forall report
      ensures report in r <==>
              exists c, k: nat :: c in w.configs && Reached(w, starts, c) && Mismatch(w, c, k, report)
    {
      ReportsExact(w, starts, order, byCodeUnit, report);
    }
    if Total(byCodeUnit) { SortSorts(violations, byCodeUnit); }
  }

  lemma NothingVisited(w: Workspace)
    ensures Distinct<string>([]) && Elements<string>([]) == {} && ReportsOfAll(w, []) == []
  {
  }

  lemma OrderGrows(w: Workspace, order: seq<string>, path: string)
    requires Distinct(order) && path !in Elements(order) && path in w.configs &&
             forall c :: c in order ==> c in w.configs
    ensures Distinct(order + [path]) && Elements(order + [path]) == Elements(order) + {path}
    ensures forall c :: c in order + [path] ==> c in w.configs
    ensures ReportsOfAll(w, order + [path]) == ReportsOfAll(w, order) + ReportsOf(w, path)
  {
    hide ReportsOf;
    assert (order + [path])[..|order|] == order;
    DistinctConcat(order, [path]);
  }

  lemma EnumeratesVisited(w: Workspace, starts: seq<string>, order: seq<string>)
    requires Distinct(order) && (forall c :: c in order ==> c in w.configs)
    requires forall c :: c in Elements(order) <==> Visited(w, Elements(starts), c)
    ensures Enumerates(w, starts, order)
  {
    hide Visited;
    forall c ensures c in order <==> Visited(w, Elements(starts), c) { assert c in order <==> c in Elements(order); }
  }

  /** Everything pending or visited is reached, and what visited configs lead to is pending or visited. */
  ghost predicate Traversal(w: Workspace, starts: seq<string>, pending: seq<string>, visited: set<string>) {
    && (forall c :: c in visited ==> Visited(w, Elements(starts), c))
    && (forall c :: c in pending && c in w.configs ==> Visited(w, Elements(starts), c))
    && (forall c :: c in starts && c in w.configs ==> c in visited || c in pending)
    && (forall a, b {:trigger Edge(Followed(w), a, b)} :: a in visited && Edge(Followed(w), a, b) ==>
       b in visited || b in pending)
  }

  lemma TraversalStarts(w: Workspace, starts: seq<string>)
    ensures Traversal(w, starts, starts, {})
  {
    forall c | c in starts && c in w.configs ensures Visited(w, Elements(starts), c) {
      ReachSelf(Followed(w), c);
      assert c in Elements(starts);
    }
  }

  lemma TraversalSkips(w: Workspace, starts: seq<string>, pending: seq<string>, path: string, visited: set<string>)
    requires Traversal(w, starts, pending + [path], visited) && (path in visited || path !in w.configs)
    ensures Traversal(w, starts, pending, visited)
  {
    forall a, b | a in visited && Edge(Followed(w), a, b) ensures b in visited || b in pending {
      assert b in visited || b in pending + [path];
    }
    forall c | c in starts && c in w.configs ensures c in visited || c in pending {
      assert c in visited || c in pending + [path];
    }
    forall c | c in pending && c in w.configs ensures Visited(w, Elements(starts), c) {
      assert c in pending + [path];
    }
  }

  lemma TraversalVisits(w: Workspace, starts: seq<string>, pending: seq<string>, path: string, visited: set<string>)
    requires Traversal(w, starts, pending + [path], visited) && path in w.configs
    ensures Traversal(w, starts, pending + ConformingTargets(w, FaceOf(w, path, {}), w.configs[path].references),
            visited + {path})
  {
    var g, next := Followed(w), ConformingTargets(w, FaceOf(w, path, {}), w.configs[path].references);
    assert g[path] == next;
    assert path in pending + [path] && Visited(w, Elements(starts), path);
    var s :| s in Elements(starts) && Reach(g, s, path);
    forall c | c in pending + next && c in w.configs ensures Visited(w, Elements(starts), c) {
      if c in pending {
        assert c in pending + [path];
      } else {
        ReachStep(g, path, c);
        ReachTrans(g, s, path, c);
      }
    }
    forall a, b | a in visited + {path} && Edge(g, a, b) ensures b in visited + {path} || b in pending + next {
      if a in visited { assert b in visited || b in pending + [path]; }
    }
    forall c | c in starts && c in w.configs ensures c in visited + {path} || c in pending + next {
      assert c in visited || c in pending + [path];
    }
  }

  lemma TraversalEnds(w: Workspace, starts: seq<string>, visited: set<string>)
    requires Traversal(w, starts, [], visited)
    ensures forall c :: c in visited <==> Visited(w, Elements(starts), c)
  {
    forall c | Visited(w, Elements(starts), c) ensures c in visited {
      var s :| s in Elements(starts) && Reach(Followed(w), s, c);
      ReachNodes(Followed(w), s, c);
      assert s in starts && s in visited;
      assert Closed(Followed(w), visited);
      ReachClosed(Followed(w), visited, s, c);
    }
  }

  // ----- the result does not depend on the order of the traversal -----

  lemma {:induction false} ReportsConcat(w: Workspace, s: seq<string>, t: seq<string>)
    requires (forall c :: c in s ==> c in w.configs) && (forall c :: c in t ==> c in w.configs)
    ensures forall c :: c in s + t ==> c in w.configs
    ensures ReportsOfAll(w, s + t) == ReportsOfAll(w, s) + ReportsOfAll(w, t)
    decreases |t|
  {
    if t == [] {
      assert s + t == s;
    } else {
      var init, last := t[..|t| - 1], t[|t| - 1];
      ReportsConcat(w, s, init);
      assert (s + t)[..|s + t| - 1] == s + init;
      assert (s + t)[|s + t| - 1] == last && last in t;
    }
  }

  lemma {:induction false} ReportsPermute(w: Workspace, s: seq<string>, t: seq<string>)
    requires (forall c :: c in s ==> c in w.configs) && (forall c :: c in t ==> c in w.configs)
    requires multiset(s) == multiset(t)
    ensures multiset(ReportsOfAll(w, s)) == multiset(ReportsOfAll(w, t))
    decreases |s|
  {
    hide ReportsOf;
    SameElements(s, t);
    if s != [] {
      var n := |s| - 1;
      var k := TakeLast(s, t);
      var u := t[..k] + t[k + 1..];
      assert forall c :: c in u ==> c in t;
      assert forall c :: c in s[..n] ==> c in s;
      ReportsPermute(w, s[..n], u);
      ReportsTake(w, s, n);
      ReportsTake(w, t, k);
      assert s[..n] + s[n + 1..] == s[..n];
    }
  }

  lemma ReportsTake(w: Workspace, t: seq<string>, k: nat)
    requires (forall c :: c in t ==> c in w.configs) && k < |t|
    ensures t[k] in t && (forall c :: c in t[..k] + t[k + 1..] ==> c in t)
    ensures multiset(ReportsOfAll(w, t)) ==
            multiset(ReportsOfAll(w, t[..k] + t[k + 1..])) + multiset(ReportsOf(w, t[k]))
  {
    hide ReportsOf;
    var x, before, after := t[k], t[..k], t[k + 1..];
    assert t == (before + [x]) + after;
    assert (before + [x])[..k] == before;
    ReportsConcat(w, before, after);
    ReportsConcat(w, before + [x], after);
  }

  /** The result does not depend on the visiting order. */
  lemma ReportsIgnoreOrder(w: Workspace, starts: seq<string>, s: seq<string>, t: seq<string>,
                           byCodeUnit: Comparator<string>)
    requires IsCollation(byCodeUnit) && Enumerates(w, starts, s) && Enumerates(w, starts, t)
    ensures SortedReports(w, s, byCodeUnit) == SortedReports(w, t, byCodeUnit)
  {
    hide Visited;
    DistinctPermutation(s, t);
    ReportsPermute(w, s, t);
    SortUnique(ReportsOfAll(w, s), ReportsOfAll(w, t), byCodeUnit);
  }

  // ----- what is reported, without the functions of the traversal -----

  /** The face that the config inherits; None if it inherits none. */
  ghost predicate IsFace(w: Workspace, c: string, face: Option<Face>) {
    if face.Some? then Inherits(w, c, face.value) else forall f :: !Inherits(w, c, f)
  }

  /** The target lies in a split project, and is not its leaf on the face that c inherits, if any. */
  ghost predicate EntersWrong(w: Workspace, c: string, target: string) {
    target in w.splitRoot && forall face :: Inherits(w, c, face) ==> target != w.leaf(w.splitRoot[target], face)
  }

  lemma ConformsMeaning(w: Workspace, c: string, target: string)
    ensures IsFace(w, c, FaceOf(w, c, {}))
    ensures Conforms(w, FaceOf(w, c, {}), target) <==> !EntersWrong(w, c, target)
  {
    hide Inherits, FaceOf;
    forall f ensures FaceOf(w, c, {}) == Some(f) <==> Inherits(w, c, f) { FaceExact(w, c, f); }
  }

  /** A reference of b that does not enter a split project wrongly leads to c. */
  ghost predicate LeadsTo(w: Workspace, b: string, c: string) {
    b in w.configs && c in w.configs &&
    exists k :: 0 <= k < |w.configs[b].references| && w.configs[b].references[k].path == c && !EntersWrong(w, b, c)
  }

  ghost predicate ReachedIn(w: Workspace, starts: seq<string>, c: string, n: nat)
    decreases n
  {
    if n == 0 then c in starts && c in w.configs
    else exists b :: ReachedIn(w, starts, b, n - 1) && LeadsTo(w, b, c)
  }

  /** The config is one of the aggregates, or such references lead to it from there. */
  ghost predicate Reached(w: Workspace, starts: seq<string>, c: string) {
    exists n: nat :: ReachedIn(w, starts, c, n)
  }

  lemma EdgeLeads(w: Workspace, b: string, c: string)
    ensures Edge(Followed(w), b, c) <==> LeadsTo(w, b, c)
  {
    hide FaceOf, Conforms, EntersWrong;
    ConformsMeaning(w, b, c);
  }

  lemma {:induction false} ReachedVisited(w: Workspace, starts: seq<string>, c: string, n: nat)
    requires ReachedIn(w, starts, c, n)
    ensures Visited(w, Elements(starts), c)
    decreases n
  {
    hide LeadsTo, Followed;
    if n == 0 {
      assert c in Followed(w) by { FollowedKeys(w); }
      ReachSelf(Followed(w), c);
    } else {
      var b :| ReachedIn(w, starts, b, n - 1) && LeadsTo(w, b, c);
      ReachedVisited(w, starts, b, n - 1);
      EdgeLeads(w, b, c);
      var s :| s in Elements(starts) && Reach(Followed(w), s, b);
      ReachStep(Followed(w), b, c);
      ReachTrans(Followed(w), s, b, c);
    }
  }

  lemma FollowedKeys(w: Workspace)
    ensures Followed(w).Keys == w.configs.Keys
  {
  }

  lemma {:induction false} ReachReached(w: Workspace, starts: seq<string>, b: string, c: string, m: nat, n: nat)
    requires ReachedIn(w, starts, b, m) && ReachIn(Followed(w), b, c, n)
    ensures Reached(w, starts, c)
    decreases n
  {
    hide LeadsTo, Followed;
    if n > 0 {
      var d :| Edge(Followed(w), b, d) && ReachIn(Followed(w), d, c, n - 1);
      EdgeLeads(w, b, d);
      assert ReachedIn(w, starts, d, m + 1);
      ReachReached(w, starts, d, c, m + 1, n - 1);
    }
  }

  /** The traversal visits exactly the configs that are reached. */
  lemma VisitedMeaning(w: Workspace, starts: seq<string>, c: string)
    ensures Visited(w, Elements(starts), c) <==> Reached(w, starts, c)
  {
    hide Followed;
    FollowedKeys(w);
    if n: nat :| ReachedIn(w, starts, c, n) { ReachedVisited(w, starts, c, n); }
    if Visited(w, Elements(starts), c) {
      var s :| s in Elements(starts) && Reach(Followed(w), s, c);
      var n :| ReachIn(Followed(w), s, c, n);
      ReachNodes(Followed(w), s, c);
      assert ReachedIn(w, starts, s, 0);
      ReachReached(w, starts, s, c, 0, n);
    }
  }

  /** The k-th reference of c enters a split project wrongly, and this is what is said about it. */
  ghost predicate Mismatch(w: Workspace, c: string, k: nat, report: string)
    requires c in w.configs
  {
    var refs := w.configs[c].references;
    && k < |refs| && EntersWrong(w, c, refs[k].path)
    && exists face :: IsFace(w, c, face) && report == w.message(c, refs[k].spelling, w.splitRoot[refs[k].path], face)
  }

  /** How often a report is given for the first n references of c. */
  ghost function Mismatches(w: Workspace, c: string, n: nat, report: string): set<int>
    requires c in w.configs
  {
    set k | 0 <= k < n && Mismatch(w, c, k, report)
  }

  lemma FaceOnce(w: Workspace, c: string, face: Option<Face>)
    requires IsFace(w, c, face)
    ensures FaceOf(w, c, {}) == face
  {
    hide Inherits, FaceOf;
    forall f ensures FaceOf(w, c, {}) == Some(f) <==> Inherits(w, c, f) { FaceExact(w, c, f); }
  }

  lemma MismatchMeaning(w: Workspace, c: string, k: nat, report: string)
    requires c in w.configs && k < |w.configs[c].references|
    ensures Said(w, c, FaceOf(w, c, {}), w.configs[c].references[k]) == [report] <==> Mismatch(w, c, k, report)
  {
    ConformsMeaning(w, c, w.configs[c].references[k].path);
    hide EntersWrong, FaceOf, IsFace;
    forall face | IsFace(w, c, face) ensures face == FaceOf(w, c, {}) { FaceOnce(w, c, face); }
  }

  lemma {:induction false} ReportsCount(w: Workspace, c: string, n: nat, report: string)
    requires c in w.configs && n <= |w.configs[c].references|
    ensures var face, refs := FaceOf(w, c, {}), w.configs[c].references;
            multiset(Reports(w, c, face, refs[..n]))[report] == |Mismatches(w, c, n, report)|
  {
    var face, refs := FaceOf(w, c, {}), w.configs[c].references;
    hide FaceOf, Mismatches, Mismatch, Reports, Said;
    if n == 0 {
      NoReports(w, c, face, report);
      assert refs[..0] == [];
    } else {
      ReportsCount(w, c, n - 1, report);
      MismatchMeaning(w, c, n - 1, report);
      ReportsLast(w, c, face, refs[..n - 1], refs[n - 1]);
      assert refs[..n] == refs[..n - 1] + [refs[n - 1]];
      OneMoreMismatch(w, c, n - 1, report);
      SaidOnce(w, c, face, refs[n - 1], report);
      CountConcat(Reports(w, c, face, refs[..n - 1]), Said(w, c, face, refs[n - 1]), report);
    }
  }

  lemma CountConcat<T>(a: seq<T>, b: seq<T>, x: T)
    ensures multiset(a + b)[x] == multiset(a)[x] + multiset(b)[x]
  {
  }

  lemma NoReports(w: Workspace, c: string, face: Option<Face>, report: string)
    requires c in w.configs
    ensures Reports(w, c, face, []) == [] && |Mismatches(w, c, 0, report)| == 0
  {
    assert Mismatches(w, c, 0, report) == {};
  }

  lemma SaidOnce(w: Workspace, c: string, face: Option<Face>, target: Target, report: string)
    ensures multiset(Said(w, c, face, target))[report] == if Said(w, c, face, target) == [report] then 1 else 0
  {
  }

  lemma OneMoreMismatch(w: Workspace, c: string, n: nat, report: string)
    requires c in w.configs
    ensures |Mismatches(w, c, n + 1, report)| ==
            |Mismatches(w, c, n, report)| + if Mismatch(w, c, n, report) then 1 else 0
  {
    hide Mismatch;
    var before, now := Mismatches(w, c, n, report), Mismatches(w, c, n + 1, report);
    assert now == if Mismatch(w, c, n, report) then before + {n} else before;
  }

  lemma {:induction false} ReportsLast(w: Workspace, c: string, face: Option<Face>, refs: seq<Target>, last: Target)
    ensures Reports(w, c, face, refs + [last]) == Reports(w, c, face, refs) + Said(w, c, face, last)
  {
    hide Said;
    var end := Said(w, c, face, last);
    if refs == [] {
      assert [last][1..] == [] && [] + [last] == [last];
      assert Reports(w, c, face, []) == [] && end + [] == end && [] + end == end;
    } else {
      assert (refs + [last])[1..] == refs[1..] + [last];
      ReportsLast(w, c, face, refs[1..], last);
      Reassociate(Said(w, c, face, refs[0]), Reports(w, c, face, refs[1..]), end);
    }
  }

  /** How many references of the listed configs a report is given for. */
  ghost function Occasions(w: Workspace, order: seq<string>, report: string): nat
    requires forall c :: c in order ==> c in w.configs
  {
    if order == [] then 0
    else
      var n := |order| - 1;
      assert order[n] in order;
      Occasions(w, order[..n], report) + |Mismatches(w, order[n], |w.configs[order[n]].references|, report)|
  }

  lemma {:induction false} ReportedCount(w: Workspace, order: seq<string>, report: string)
    requires forall c :: c in order ==> c in w.configs
    ensures multiset(ReportsOfAll(w, order))[report] == Occasions(w, order, report)
    decreases |order|
  {
    hide Mismatches;
    if order != [] {
      var n := |order| - 1;
      var last := order[n];
      assert last in order;
      ReportedCount(w, order[..n], report);
      var refs := w.configs[last].references;
      ReportsCount(w, last, |refs|, report);
      assert refs[..|refs|] == refs;
    }
  }

  lemma {:induction false} OccasionsMeaning(w: Workspace, order: seq<string>, report: string)
    requires forall c :: c in order ==> c in w.configs
    ensures Occasions(w, order, report) > 0 <==> exists c, k: nat :: c in order && Mismatch(w, c, k, report)
    decreases |order|
  {
    hide Mismatch;
    if order != [] {
      var n := |order| - 1;
      var last := order[n];
      assert order == order[..n] + [last];
      OccasionsMeaning(w, order[..n], report);
      SomeMismatch(w, last, report);
      hide Mismatches;
    }
  }

  lemma SomeMismatch(w: Workspace, c: string, report: string)
    requires c in w.configs
    ensures |Mismatches(w, c, |w.configs[c].references|, report)| > 0 <==> exists k: nat :: Mismatch(w, c, k, report)
  {
    var n := |w.configs[c].references|;
    var all := Mismatches(w, c, n, report);
    if k: nat :| Mismatch(w, c, k, report) { assert k in all; }
    if |all| > 0 { var k :| k in all; }
  }

  /** Sound, complete, and each as often as it applies: a report is given for every reference of a
      reached config that enters a split project without the config inheriting a face, or off the leaf of
      that face; and for nothing else. */
  lemma ReportsExact(w: Workspace, starts: seq<string>, order: seq<string>, byCodeUnit: Comparator<string>,
                     report: string)
    requires Enumerates(w, starts, order)
    ensures report in SortedReports(w, order, byCodeUnit) <==>
            exists c, k: nat :: c in w.configs && Reached(w, starts, c) && Mismatch(w, c, k, report)
    ensures multiset(SortedReports(w, order, byCodeUnit))[report] == Occasions(w, order, report)
    ensures forall c :: c in order <==> Reached(w, starts, c)
  {
    hide Visited, Reached, Mismatch;
    forall c ensures c in order <==> Reached(w, starts, c) { VisitedMeaning(w, starts, c); }
    var reports := SortedReports(w, order, byCodeUnit);
    ReportedCount(w, order, report);
    OccasionsMeaning(w, order, report);
    assert report in reports <==> report in multiset(reports);
  }
}
