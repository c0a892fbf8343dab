/** package-graph.ts as the program runs it: the search object of `sinkCycles` and the
    loops of `topoSort`, each proved to compute the functions of Tarjan and PackageOrder. */
module PackageSort {
  import opened Basics
  import opened Digraph
  import opened Packages
  import opened PackageOrder
  import opened Sorting
  import T = Tarjan

  /** The variables that the local function `visit` of `sinkCycles` shares between its calls. */
  class ComponentSearch {
    const remaining: PackageMap
    ghost const graph: Graph
    var nextIndex: nat
    var indices: map<string, nat>
    var lowLinks: map<string, nat>
    var stack: seq<string>
    var stacked: set<string>
    var components: seq<seq<string>>

    constructor (remaining: PackageMap)
      ensures this.remaining == remaining && graph == remaining.Graph()
      ensures View() == T.INITIAL && stacked == {}
    {
      this.remaining := remaining;
      graph := remaining.Graph();
      nextIndex, indices, lowLinks, stack, stacked, components := 0, map[], map[], [], {}, [];
    }

    ghost function View(): T.Search
      reads this
    {
      T.Search(nextIndex, indices, lowLinks, stack, components)
    }

    ghost predicate Ready()
      reads this
    {
      graph == remaining.Graph() && T.Sound(graph, View()) && stacked == Elements(stack)
    }

    /** `grey` holds the packages whose visit is under way. */
    ghost predicate Valid(grey: set<string>)
      reads this
    {
      Ready() && T.Inv(graph, View(), grey)
    }

    /** One call of the closure. None of its map lookups and pops can fail. */
    method Visit(pkg: string, ghost grey: set<string>)
      requires Valid(grey) && pkg in remaining.entries && pkg !in indices && pkg in graph
      requires forall z :: z in grey ==> Reach(graph, z, pkg)
      modifies this
      ensures Valid(grey)
      ensures old(T.Sound(graph, View())) && View() == T.Visit(graph, old(View()), pkg)
      decreases graph.Keys - indices.Keys, 0
    {
      hide T.Inv, T.Progress, T.Exploring, T.Visited, T.FollowAll, T.Visit, T.PopUntil, Dependencies, Distinct, Reach,
           Edge;
      ghost var s0 := View();
      T.VisitUnfolds(graph, s0, pkg);
      T.EnterCall(graph, s0, pkg, grey);
      T.VisitCorrect(graph, s0, pkg, grey);
      var index := nextIndex;
      nextIndex := nextIndex + 1;
      indices := indices[pkg := index];
      lowLinks := lowLinks[pkg := index];
      stack := stack + [pkg];
      stacked := stacked + {pkg};
      assert View() == T.Push(s0, pkg);
      FewerLeft(graph, s0.indices, pkg, index);
      FollowAll(pkg, s0, grey);
      if lowLinks[pkg] != indices[pkg] {
        return;
      }
      ActiveOnStack(graph, s0, View(), pkg, grey);
      var component := PopComponent(pkg);
      components := components + [component];
    }

    /** The loop of `visit` over the dependencies of pkg. */
    method FollowAll(pkg: string, ghost s0: T.Search, ghost grey: set<string>)
      requires Ready() && pkg in remaining.entries && pkg in indices && pkg in graph
      requires T.Exploring(graph, s0, View(), pkg, {}, grey)
      requires forall z :: z in grey ==> Reach(graph, z, pkg)
      modifies this
      ensures Ready() && old(indices).Keys <= indices.Keys
      ensures T.Exploring(graph, s0, View(), pkg, Elements(graph[pkg]), grey)
      ensures old(T.Sound(graph, View())) && View() == T.FollowAll(graph, old(View()), pkg, graph[pkg])
      decreases graph.Keys - indices.Keys, 2
    {
      hide T.Inv, T.Progress, T.Exploring, Dependencies, T.Follow, T.FollowAll;
      ghost var start := View();
      DependenciesMeaning(remaining.entries, pkg);
      var deps := remaining.entries[pkg].deps;
      assert Elements(deps[..0]) == {} && deps[0..] == deps && deps[|deps|..] == [];
      for i := 0 to |deps|
        invariant Ready() && old(indices).Keys <= indices.Keys
        invariant T.Exploring(graph, s0, View(), pkg, Elements(deps[..i]), grey)
        invariant T.FollowAll(graph, View(), pkg, deps[i..]) == T.FollowAll(graph, start, pkg, deps)
      {
        FollowStep(graph, s0, View(), pkg, deps, i, grey);
        Follow(pkg, deps[i], grey);
      }
      assert deps[..|deps|] == deps;
      FollowNone(graph, View(), pkg);
    }

    /** The body of that loop. */
    method Follow(pkg: string, dependency: string, ghost grey: set<string>)
      requires Valid(grey + {pkg}) && pkg in remaining.entries && pkg in indices && pkg in graph
      requires dependency in graph[pkg]
      requires forall z :: z in grey ==> Reach(graph, z, pkg)
      modifies this
      ensures Ready() && old(indices).Keys <= indices.Keys
      ensures old(T.Sound(graph, View())) && View() == T.Follow(graph, old(View()), pkg, dependency)
      decreases graph.Keys - indices.Keys, 1
    {
      hide T.Inv, Dependencies, T.Visit;
      DependenciesMeaning(remaining.entries, dependency);
      if dependency in remaining.entries {
        if dependency !in indices {
          assert Edge(graph, pkg, dependency);
          T.ActiveReach(graph, pkg, dependency, grey);
          Visit(dependency, grey + {pkg});
          lowLinks := lowLinks[pkg := Min(lowLinks[pkg], lowLinks[dependency])];
        } else if dependency in stacked {
          lowLinks := lowLinks[pkg := Min(lowLinks[pkg], indices[dependency])];
        }
      }
    }

    /** Pop the stack down to and including pkg; `pop` never meets an empty stack. */
    method PopComponent(pkg: string) returns (component: seq<string>)
      requires pkg in stack && Distinct(stack) && stacked == Elements(stack)
      modifies this`stack, this`stacked
      ensures (stack, component) == T.PopUntil(old(stack), pkg) && stacked == Elements(stack)
    {
      var member := stack[|stack| - 1];
      PopLast(stack);
      stack := stack[..|stack| - 1];
      stacked := stacked - {member};
      component := [member];
      while member != pkg
        invariant member != pkg ==> pkg in stack
        invariant Distinct(stack) && stacked == Elements(stack)
        invariant T.PopUntil(old(stack), pkg) ==
                  if member == pkg then (stack, component)
                  else (T.PopUntil(stack, pkg).0, component + T.PopUntil(stack, pkg).1)
        decreases |stack|
      {
        ghost var rest := T.PopUntil(stack, pkg).1;
        ghost var popped := component;
        member := stack[|stack| - 1];
        PopLast(stack);
        stack := stack[..|stack| - 1];
        stacked := stacked - {member};
        component := component + [member];
        assert member != pkg ==> popped + rest == component + T.PopUntil(stack, pkg).1;
      }
    }
  }

  lemma FewerLeft(g: Graph, indices: map<string, nat>, pkg: string, index: nat)
    requires pkg in g && pkg !in indices
    ensures g.Keys - indices[pkg := index].Keys < g.Keys - indices.Keys
  {
    assert pkg in g.Keys - indices.Keys && pkg !in g.Keys - indices[pkg := index].Keys;
  }

  /** One step of the loop over the dependencies. */
  lemma FollowStep(g: Graph, s0: T.Search, s: T.Search, pkg: string, deps: seq<string>, i: nat, grey: set<string>)
    requires T.Sound(g, s) && pkg in s.indices && pkg in g && i < |deps| && deps[i] in g[pkg]
    requires T.Exploring(g, s0, s, pkg, Elements(deps[..i]), grey)
    requires forall z :: z in grey ==> Reach(g, z, pkg)
    ensures T.Exploring(g, s0, T.Follow(g, s, pkg, deps[i]), pkg, Elements(deps[..i + 1]), grey)
    ensures T.FollowAll(g, s, pkg, deps[i..]) == T.FollowAll(g, T.Follow(g, s, pkg, deps[i]), pkg, deps[i + 1..])
    ensures T.Inv(g, s, grey + {pkg})
  {
    hide T.Inv, T.Progress, T.Exploring, T.Follow;
    assert deps[i..][0] == deps[i] && deps[i..][1..] == deps[i + 1..];
    assert Elements(deps[..i + 1]) == Elements(deps[..i]) + {deps[i]} by {
      assert deps[..i + 1] == deps[..i] + [deps[i]];
    }
    T.FollowCorrect(g, s0, s, pkg, Elements(deps[..i]), deps[i], grey);
    T.ExploringInv(g, s0, s, pkg, Elements(deps[..i]), grey);
  }

  lemma FollowNone(g: Graph, s: T.Search, pkg: string)
    requires T.Sound(g, s) && pkg in s.indices
    ensures T.FollowAll(g, s, pkg, []) == s
  {
  }

  lemma PopLast(s: seq<string>)
    requires Distinct(s) && s != []
    ensures var n := |s| - 1;
            Distinct(s[..n]) && Elements(s[..n]) == Elements(s) - {s[n]} &&
              forall x :: x in s && x != s[n] ==> x in s[..n]
  {
    assert s == s[..|s| - 1] + [s[|s| - 1]];
  }

  lemma ActiveOnStack(g: Graph, s0: T.Search, s: T.Search, x: string, grey: set<string>)
    requires x in g && T.Exploring(g, s0, s, x, Elements(g[x]), grey)
    ensures x in s.stack && Distinct(s.stack)
  {
    assert s.stack[|s0.stack|] == x;
    T.StackDistinct(g, s);
  }

  /** `sinkCycles`: search from every package not yet visited, then keep the sink cycles. */
  method FindSinkCycles(remaining: PackageMap) returns (r: seq<seq<string>>)
    requires remaining.Valid()
    ensures r == SinkCycles(remaining)
  {
    hide T.Components, Known, SinkCycleSet;
    var found := FindComponents(remaining);
    FoundKnown(remaining);
    r := KeepSinkCycles(remaining, found);
  }

  method FindComponents(remaining: PackageMap) returns (found: seq<seq<string>>)
    requires remaining.Valid()
    ensures found == Found(remaining)
  {
    hide T.Inv, T.Visit, IsComponent, Distinct;
    ghost var g := remaining.Graph();
    KeysKnown(remaining);
    var search := new ComponentSearch(remaining);
    T.InitialInv(g);
    var keys := remaining.keys;
    for i := 0 to |keys|
      invariant search.Valid({}) && search.remaining == remaining && search.graph == g && fresh(search)
      invariant T.SearchFrom(g, search.View(), keys[i..]) == T.SearchFrom(g, T.INITIAL, keys)
    {
      assert keys[i..][0] == keys[i] && keys[i..][1..] == keys[i + 1..];
      if keys[i] !in search.indices {
        search.Visit(keys[i], {});
      }
    }
    found := search.components;
  }

  lemma KeysKnown(m: PackageMap)
    requires m.Valid()
    ensures forall v :: v in m.keys ==> v in m.Graph()
  {
    forall v | v in m.keys ensures v in m.Graph() { assert v in Elements(m.keys); }
  }

  lemma FoundKnown(m: PackageMap)
    requires m.Valid()
    ensures forall c :: c in Found(m) ==> Known(m, c)
  {
    forall c | c in Found(m) ensures Known(m, c) { ComponentMembers(m.Graph(), c); }
  }

  /** The packages the next pass of `topoSort`'s loop places. */
  method NextRound(remaining: PackageMap, placed: set<string>, cmp: Comparator<Package>) returns (ready: seq<Package>)
    requires remaining.Valid()
    ensures ready == Round(remaining, placed, cmp)
  {
    ready := Sort(Ready(remaining.Values(), placed), cmp);
    if ready == [] {
      var cycles := FindSinkCycles(remaining);
      ready := FirstCycle(SortedCycles(remaining, cycles, cmp), cmp);
    }
  }

  /** `topoSort`. */
  method TopologicalSort(packages: seq<Package>, groupOrder: seq<string>, collate: Collation) returns (r: SortResult)
    ensures r == TopoSort(packages, groupOrder, collate)
  {
    var byName := ByName(packages);
    var check := FindMissing(packages, byName.entries.Keys);
    if check.MissingPeer? {
      return check;
    }
    r := RunRounds(byName, Precedence(groupOrder, collate));
  }

  /** The loop of `topoSort`. */
  method RunRounds(byName: PackageMap, cmp: Comparator<Package>) returns (r: SortResult)
    requires byName.Valid()
    ensures r == Rounds(byName, {}, cmp)
  {
    hide Round, Rounds;
    var remaining, placed := byName, {};
    var out: seq<Package> := [];
    assert Continue([], Rounds(byName, {}, cmp)) == Rounds(byName, {}, cmp) by {
      ContinueNothing(Rounds(byName, {}, cmp));
    }
    while remaining.keys != []
      invariant remaining.Valid()
      invariant Continue(out, Rounds(remaining, placed, cmp)) == Rounds(byName, {}, cmp)
      decreases remaining.entries.Keys
    {
      RoundsUnfolds(remaining, placed, cmp);
      var ready := NextRound(remaining, placed, cmp);
      if ready == [] {
        return CouldNotOrder;
      }
      ghost var outBefore := out;
      remaining, placed, out := Place(remaining, placed, out, ready);
      ContinueStep(outBefore, ready, Rounds(remaining, placed, cmp));
    }
    assert Rounds(remaining, placed, cmp) == Ordered([]) by { RoundsEnd(remaining, placed, cmp); }
    r := Ordered(out);
    assert out + [] == out;
  }

  lemma RoundsEnd(m: PackageMap, placed: set<string>, cmp: Comparator<Package>)
    requires m.Valid() && m.keys == []
    ensures Rounds(m, placed, cmp) == Ordered([])
  {
  }

  lemma RoundsUnfolds(m: PackageMap, placed: set<string>, cmp: Comparator<Package>)
    requires m.Valid() && m.keys != []
    ensures Round(m, placed, cmp) == [] ==> Rounds(m, placed, cmp) == CouldNotOrder
    ensures Round(m, placed, cmp) != [] ==>
              var names := Elements(Shorts(Round(m, placed, cmp)));
              && m.DeleteAll(names).entries.Keys < m.entries.Keys
              && Rounds(m, placed, cmp)
                 == Continue(Round(m, placed, cmp), Rounds(m.DeleteAll(names), placed + names, cmp))
  {
    var batch := Round(m, placed, cmp);
    RoundLists(m, placed, cmp);
    if batch != [] {
      assert batch[0] in batch && Shorts(batch)[0] in Elements(Shorts(batch));
      assert batch[0].short in m.entries && batch[0].short !in m.DeleteAll(Elements(Shorts(batch))).entries;
    }
  }

  lemma ContinueNothing(rest: SortResult)
    ensures Continue([], rest) == rest
  {
    if rest.Ordered? { assert [] + rest.packages == rest.packages; }
  }

  ghost function Continue(out: seq<Package>, rest: SortResult): SortResult {
    if rest.Ordered? then Ordered(out + rest.packages) else rest
  }

  lemma ContinueStep(out: seq<Package>, batch: seq<Package>, rest: SortResult)
    ensures Continue(out + batch, rest) == Continue(out, Continue(batch, rest))
  {
    if rest.Ordered? {
      assert (out + batch) + rest.packages == out + (batch + rest.packages);
    }
  }

  /** The loop that moves the packages of one round from `remaining` to `out`. */
  method Place(remaining: PackageMap, placed: set<string>, out: seq<Package>, ready: seq<Package>)
    returns (remaining': PackageMap, placed': set<string>, out': seq<Package>)
    requires remaining.Valid()
    ensures remaining' == remaining.DeleteAll(Elements(Shorts(ready)))
    ensures placed' == placed + Elements(Shorts(ready)) && out' == out + ready
  {
    remaining', placed', out' := remaining, placed, out;
    KeepAll(remaining);
    for i := 0 to |ready|
      invariant remaining'.Valid()
      invariant remaining' == remaining.DeleteAll(Elements(Shorts(ready[..i])))
      invariant placed' == placed + Elements(Shorts(ready[..i])) && out' == out + ready[..i]
    {
      var pkg := ready[i];
      assert Elements(Shorts(ready[..i + 1])) == Elements(Shorts(ready[..i])) + {pkg.short} by {
        assert Shorts(ready[..i + 1]) == Shorts(ready[..i]) + [pkg.short];
      }
      DeleteTwice(remaining, Elements(Shorts(ready[..i])), {pkg.short});
      out' := out' + [pkg];
      placed' := placed' + {pkg.short};
      remaining' := remaining'.DeleteAll({pkg.short});
    }
    assert ready[..|ready|] == ready;
  }

  lemma {:induction false} KeepEverything(keys: seq<string>)
    ensures Keep(keys, {}) == keys
  {
    if keys != [] { KeepEverything(keys[1..]); }
  }

  lemma KeepAll(m: PackageMap)
    requires m.Valid()
    ensures m.DeleteAll(Elements(Shorts([]))) == m
  {
    assert Elements(Shorts([])) == {};
    KeepEverything(m.keys);
    assert m.entries - {} == m.entries;
  }

  lemma {:induction false} KeepTwice(keys: seq<string>, a: set<string>, b: set<string>)
    ensures Keep(Keep(keys, a), b) == Keep(keys, a + b)
  {
    if keys != [] {
      KeepTwice(keys[1..], a, b);
      if keys[0] in a {
        assert Keep(keys, a) == Keep(keys[1..], a);
        assert Keep(keys, a + b) == Keep(keys[1..], a + b);
      } else {
        assert Keep(keys, a) == [keys[0]] + Keep(keys[1..], a);
        assert Keep(keys, a)[1..] == Keep(keys[1..], a);
      }
    }
  }

  lemma DeleteTwice(m: PackageMap, a: set<string>, b: set<string>)
    requires m.Valid()
    ensures m.DeleteAll(a).DeleteAll(b) == m.DeleteAll(a + b)
  {
    KeepTwice(m.keys, a, b);
    assert m.entries - a - b == m.entries - (a + b);
  }
}
