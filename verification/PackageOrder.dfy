/** `topoSort` and `sinkCycles` as functions of the package map, and what their result means. */
module PackageOrder {
  import opened Digraph
  import opened LayeredOrder
  import opened Packages
  import opened Sorting
  import opened Tarjan

  /** A component as the source types it: at least one package. */
  type Cycle = c: seq<Package> | c != [] witness [Package("", "", "", "", [])]

  datatype SortResult =
    | Ordered(packages: seq<Package>)
    | MissingPeer(package: Package, dependency: string)
    | CouldNotOrder

  function Shorts(ps: seq<Package>): (ns: seq<string>)
    ensures |ns| == |ps| && forall i :: 0 <= i < |ns| ==> ns[i] == ps[i].short
  {
    seq(|ps|, i requires 0 <= i < |ps| => ps[i].short)
  }

  // ----- sinkCycles -----

  /** The components of what remains, in the order Tarjan's search emits them. */
  function Found(m: PackageMap): (cs: seq<seq<string>>)
    requires m.Valid()
    ensures forall c :: c in cs ==> Distinct(c) && IsComponent(m.Graph(), Elements(c))
  {
    assert forall v :: v in m.keys ==> v in Elements(m.keys);
    TarjanFindsComponents(m.Graph(), m.keys);
    Components(m.Graph(), m.keys)
  }

  predicate Known(m: PackageMap, names: seq<string>) {
    names != [] && forall n :: n in names ==> n in m.entries
  }

  /** The filter at the end of `sinkCycles`: cyclic, and no dependency leads elsewhere. */
  predicate IsSinkCycle(m: PackageMap, c: seq<string>)
    requires Known(m, c)
  {
    && (|c| > 1 || c[0] in m.entries[c[0]].deps)
    && (forall n :: n in c ==> forall d :: d in m.entries[n].deps ==> d !in m.entries || d in c)
  }

  function KeepSinkCycles(m: PackageMap, cs: seq<seq<string>>): (r: seq<seq<string>>)
    requires forall c :: c in cs ==> Known(m, c)
    ensures forall c :: c in r <==> c in cs && IsSinkCycle(m, c)
  {
    if cs == [] then []
    else
      assert cs[0] in cs;
      (if IsSinkCycle(m, cs[0]) then [cs[0]] else []) + KeepSinkCycles(m, cs[1..])
  }

  lemma ComponentMembers(g: Graph, c: seq<string>)
    requires IsComponent(g, Elements(c))
    ensures c != [] && forall n :: n in c ==> n in g
  {
    assert c == [] ==> Elements(c) == {};
    forall n | n in c ensures n in g { assert n in Elements(c); }
  }

  function SinkCycles(m: PackageMap): (r: seq<seq<string>>)
    requires m.Valid()
    ensures forall c :: c in r <==> c in Found(m) && Known(m, c) && IsSinkCycle(m, c)
  {
    assert forall c :: c in Found(m) ==> Known(m, c) by {
      forall c | c in Found(m) ensures Known(m, c) {
        ComponentMembers(m.Graph(), c);
      }
    }
    KeepSinkCycles(m, Found(m))
  }

  /** A component that can be placed as one block: cyclic, and closed among what remains. */
  ghost predicate SinkCycleSet(g: Graph, c: set<string>) {
    IsComponent(g, c) && Closed(g, c) && exists a, b :: a in c && b in c && Edge(g, a, b)
  }

  lemma SinkCycleMeaning(m: PackageMap, c: seq<string>)
    requires m.Valid() && Distinct(c) && IsComponent(m.Graph(), Elements(c))
    requires Known(m, c)
    ensures IsSinkCycle(m, c) <==> SinkCycleSet(m.Graph(), Elements(c))
  {
    var g := m.Graph();
    var s := Elements(c);
    assert c[0] in s;
    if IsSinkCycle(m, c) {
      forall a, b | a in s && Edge(g, a, b) ensures b in s { assert a in c; }
      if |c| > 1 {
        assert c[0] != c[1] && c[1] in s;
        assert Reach(g, c[0], c[1]);
        var x, y := ReachExit(g, {c[0]}, c[0], c[1]);
        assert Edge(g, c[0], y);
        assert y in s;
      } else {
        assert Edge(g, c[0], c[0]);
      }
    }
    if SinkCycleSet(g, s) {
      var a, b :| a in s && b in s && Edge(g, a, b);
      assert a in c && b in c;
      forall n, d | n in c && d in m.entries[n].deps && d in m.entries ensures d in c {
        assert n in s && Edge(g, n, d);
      }
    }
  }

  lemma SinkCyclesSound(m: PackageMap, c: seq<string>)
    requires m.Valid() && c in SinkCycles(m)
    ensures Known(m, c) && Distinct(c) && SinkCycleSet(m.Graph(), Elements(c))
  {
    SinkCycleMeaning(m, c);
  }

  lemma ComponentFound(m: PackageMap, a: string) returns (c: seq<string>)
    requires m.Valid() && a in m.entries
    ensures c in Found(m) && Elements(c) == Component(m.Graph(), a)
  {
    TarjanFindsComponents(m.Graph(), m.keys);
    var cs := Found(m);
    var i :| 0 <= i < |cs| && a in cs[i] && Elements(cs[i]) == Component(m.Graph(), a);
    c := cs[i];
  }

  lemma SinkCyclesComplete(m: PackageMap, s: set<string>) returns (c: seq<string>)
    requires m.Valid() && SinkCycleSet(m.Graph(), s)
    ensures c in SinkCycles(m) && Elements(c) == s
  {
    var a :| a in s;
    c := ComponentFound(m, a);
    ComponentUnique(m.Graph(), s, a);
    ComponentMembers(m.Graph(), c);
    SinkCycleMeaning(m, c);
  }

  /** Where every node has a successor, some sink cycle exists. */
  lemma SinkCycleExists(g: Graph, a: string) returns (s: set<string>)
    requires a in g
    requires forall v :: v in g ==> exists w :: Edge(g, v, w)
    ensures SinkCycleSet(g, s)
  {
    var b := SinkReachable(g, a);
    ReachNodes(g, a, b);
    ComponentIsComponent(g, b);
    s := Component(g, b);
    var w :| Edge(g, b, w);
    assert w in s;
  }

  // ----- one round of topoSort -----

  function Ready(ps: seq<Package>, placed: set<string>): (r: seq<Package>)
    ensures forall p :: p in r <==> p in ps && forall d :: d in p.deps ==> d in placed
    ensures multiset(r) <= multiset(ps)
  {
    if ps == [] then []
    else
      assert ps == [ps[0]] + ps[1..];
      (if forall d :: d in ps[0].deps ==> d in placed then [ps[0]] else []) + Ready(ps[1..], placed)
  }

  /** A sink cycle as packages in package order. */
  function SortedCycle(m: PackageMap, c: seq<string>, cmp: Comparator<Package>): (r: Cycle)
    requires Known(m, c)
  {
    var ps := m.Named(c);
    SameElements(Sort(ps, cmp), ps);
    Sort(ps, cmp)
  }

  function SortedCycles(m: PackageMap, cs: seq<seq<string>>, cmp: Comparator<Package>): (r: seq<Cycle>)
    requires forall c :: c in cs ==> Known(m, c)
    ensures |r| == |cs| && forall i :: 0 <= i < |r| ==> cs[i] in cs && r[i] == SortedCycle(m, cs[i], cmp)
  {
    seq(|cs|, i requires 0 <= i < |cs| => assert cs[i] in cs; SortedCycle(m, cs[i], cmp))
  }

  function HeadOrder(cmp: Comparator<Package>): Comparator<Cycle> {
    (a: Cycle, b: Cycle) => cmp(a[0], b[0])
  }

  /** The packages one round places, in order; none when the round can place nothing. */
  function Round(m: PackageMap, placed: set<string>, cmp: Comparator<Package>): seq<Package>
    requires m.Valid()
  {
    var ready := Sort(Ready(m.Values(), placed), cmp);
    if ready != [] then ready
    else
      ChosenCycle(m, cmp)
  }

  function ChosenCycle(m: PackageMap, cmp: Comparator<Package>): seq<Package>
    requires m.Valid()
  {
    FirstCycle(SortedCycles(m, SinkCycles(m), cmp), cmp)
  }

  /** The cycle whose first package is least. */
  function FirstCycle(cycles: seq<Cycle>, cmp: Comparator<Package>): (r: seq<Package>)
    ensures r == [] <==> cycles == []
    ensures r != [] ==> exists i :: 0 <= i < |cycles| && cycles[i] == r
  {
    var sorted := Sort(cycles, HeadOrder(cmp));
    SameElements(sorted, cycles);
    if sorted == [] then []
    else
      assert sorted[0] in cycles;
      sorted[0]
  }

  /** ps lists packages of m, each at most once. */
  ghost predicate Lists(m: PackageMap, ps: seq<Package>) {
    (forall p :: p in ps ==> p.short in m.entries && m.entries[p.short] == p) && Distinct(Shorts(ps))
  }

  lemma ShortsDistinct(m: PackageMap, ps: seq<Package>)
    requires forall p :: p in ps ==> p.short in m.entries && m.entries[p.short] == p
    ensures Distinct(Shorts(ps)) <==> Distinct(ps)
  {
    if Distinct(ps) {
      forall i, j | 0 <= i < j < |ps| ensures ps[i].short != ps[j].short {
        assert ps[i] in ps && ps[j] in ps;
      }
    }
    if Distinct(Shorts(ps)) {
      forall i, j | 0 <= i < j < |ps| ensures ps[i] != ps[j] {
        assert Shorts(ps)[i] != Shorts(ps)[j];
      }
    }
  }

  lemma SortLists(m: PackageMap, ps: seq<Package>, cmp: Comparator<Package>)
    requires Lists(m, ps)
    ensures Lists(m, Sort(ps, cmp))
  {
    var r := Sort(ps, cmp);
    SameElements(r, ps);
    ShortsDistinct(m, ps);
    ShortsDistinct(m, r);
    DistinctByCount(ps);
    DistinctByCount(r);
  }

  lemma ReadyLists(m: PackageMap, placed: set<string>)
    requires m.Valid()
    ensures Lists(m, Ready(m.Values(), placed))
    ensures forall p :: p in Ready(m.Values(), placed) <==>
              p.short in m.entries && m.entries[p.short] == p && forall d :: d in p.deps ==> d in placed
  {
    var vs := m.Values();
    assert Shorts(vs) == m.keys by {
      forall i | 0 <= i < |vs| ensures vs[i].short == m.keys[i] { assert m.keys[i] in Elements(m.keys); }
    }
    forall p ensures p in vs <==> p.short in m.entries && m.entries[p.short] == p {
      if p.short in m.entries && m.entries[p.short] == p {
        assert p.short in Elements(m.keys);
        var i :| 0 <= i < |m.keys| && m.keys[i] == p.short;
        assert vs[i] == p;
      }
      if p in vs {
        var i :| 0 <= i < |vs| && vs[i] == p;
        assert m.keys[i] in Elements(m.keys);
      }
    }
    var ready := Ready(vs, placed);
    ShortsDistinct(m, vs);
    ShortsDistinct(m, ready);
    DistinctByCount(vs);
    DistinctByCount(ready);
  }

  lemma CycleLists(m: PackageMap, c: seq<string>, cmp: Comparator<Package>)
    requires m.Valid() && Known(m, c) && Distinct(c)
    ensures Lists(m, SortedCycle(m, c, cmp))
    ensures Elements(Shorts(SortedCycle(m, c, cmp))) == Elements(c)
  {
    var ps := m.Named(c);
    assert Shorts(ps) == c by {
      forall i | 0 <= i < |c| ensures ps[i].short == c[i] { assert c[i] in c; }
    }
    SortLists(m, ps, cmp);
    SameShorts(Sort(ps, cmp), ps);
  }

  lemma SameShorts(s: seq<Package>, t: seq<Package>)
    requires multiset(s) == multiset(t)
    ensures Elements(Shorts(s)) == Elements(Shorts(t))
  {
    SameElements(s, t);
    ShortsElements(s);
    ShortsElements(t);
  }

  lemma ShortsElements(s: seq<Package>)
    ensures Elements(Shorts(s)) == set p | p in s :: p.short
  {
    forall n | n in Elements(Shorts(s)) ensures exists p :: p in s && p.short == n {
      var i :| 0 <= i < |s| && Shorts(s)[i] == n;
      assert s[i] in s;
    }
    forall p | p in s ensures p.short in Elements(Shorts(s)) {
      var i :| 0 <= i < |s| && s[i] == p;
      assert Shorts(s)[i] == p.short;
    }
  }

  /** The chosen cycle is one sink cycle, in package order. */
  lemma ChosenIsSinkCycle(m: PackageMap, cmp: Comparator<Package>) returns (c: seq<string>)
    requires m.Valid() && ChosenCycle(m, cmp) != []
    ensures c in SinkCycles(m) && Known(m, c) && ChosenCycle(m, cmp) == SortedCycle(m, c, cmp)
  {
    var cs := SinkCycles(m);
    var cycles := SortedCycles(m, cs, cmp);
    var i :| 0 <= i < |cycles| && cycles[i] == FirstCycle(cycles, cmp);
    c := cs[i];
  }

  lemma RoundIsChosen(m: PackageMap, placed: set<string>, cmp: Comparator<Package>)
    requires m.Valid() && Ready(m.Values(), placed) == []
    ensures Round(m, placed, cmp) == ChosenCycle(m, cmp)
  {
    SameElements(Ready(m.Values(), placed), Sort(Ready(m.Values(), placed), cmp));
  }

  lemma RoundLists(m: PackageMap, placed: set<string>, cmp: Comparator<Package>)
    requires m.Valid()
    ensures Lists(m, Round(m, placed, cmp))
  {
    var ready := Ready(m.Values(), placed);
    ReadyLists(m, placed);
    SortLists(m, ready, cmp);
    SameElements(ready, Sort(ready, cmp));
    if Sort(ready, cmp) == [] && Round(m, placed, cmp) != [] {
      RoundIsChosen(m, placed, cmp);
      var c := ChosenIsSinkCycle(m, cmp);
      SinkCyclesSound(m, c);
      CycleLists(m, c, cmp);
    }
  }

  // ----- topoSort -----

  /** `new Map(packages.map(pkg => [pkg.short, pkg]))`. */
  function ByName(ps: seq<Package>): (m: PackageMap)
    ensures m.Valid()
    ensures m.entries.Keys == Elements(Shorts(ps))
    ensures forall k :: k in m.entries ==> m.entries[k] in ps
  {
    if ps == [] then PackageMap([], map[])
    else
      var init, last := ps[..|ps| - 1], ps[|ps| - 1];
      assert Shorts(ps) == Shorts(init) + [last.short];
      ByName(init).Set(last)
  }

  /** The first dependency, in list order, that no package of the list provides. */
  function FindMissing(ps: seq<Package>, known: set<string>): (r: SortResult)
    ensures r.Ordered? <==> forall p, d :: p in ps && d in p.deps ==> d in known
    ensures r.MissingPeer? ==> r.package in ps && r.dependency in r.package.deps && r.dependency !in known
    ensures r.MissingPeer? ==> exists i, j :: FirstMissing(ps, known, i, j, r.package, r.dependency)
    ensures !r.CouldNotOrder?
  {
    if ps == [] then Ordered([])
    else
      var missing := FirstUnknown(ps[0].deps, known);
      var r := if missing != [] then MissingPeer(ps[0], missing[0]) else FindMissing(ps[1..], known);
      MissingFirst(ps, known, missing, r);
      r
  }

  /** The j-th dependency of the i-th package is missing, and none before it in list order is. */
  ghost predicate FirstMissing(ps: seq<Package>, known: set<string>, i: int, j: int, p: Package, d: string) {
    && 0 <= i < |ps| && p == ps[i] && 0 <= j < |p.deps| && d == p.deps[j] && d !in known
    && (forall k :: 0 <= k < j ==> p.deps[k] in known)
    && (forall k, e :: 0 <= k < i && e in ps[k].deps ==> e in known)
  }

  lemma MissingFirst(ps: seq<Package>, known: set<string>, missing: seq<string>, r: SortResult)
    requires ps != []
    requires r.MissingPeer? ==>
             if missing != [] then
               && r == MissingPeer(ps[0], missing[0])
               && exists j :: 0 <= j < |ps[0].deps| && ps[0].deps[j] == missing[0] && missing[0] !in known
                              && forall k :: 0 <= k < j ==> ps[0].deps[k] in known
             else
               && (forall d :: d in ps[0].deps ==> d in known)
               && exists i, j :: FirstMissing(ps[1..], known, i, j, r.package, r.dependency)
    ensures r.MissingPeer? ==> exists i, j :: FirstMissing(ps, known, i, j, r.package, r.dependency)
  {
    if r.MissingPeer? && missing != [] {
      var j :| 0 <= j < |ps[0].deps| && ps[0].deps[j] == missing[0] && missing[0] !in known
               && forall k :: 0 <= k < j ==> ps[0].deps[k] in known;
      assert FirstMissing(ps, known, 0, j, r.package, r.dependency);
    } else if r.MissingPeer? {
      var i, j :| FirstMissing(ps[1..], known, i, j, r.package, r.dependency);
      assert ps[1..][i] == ps[i + 1];
      assert forall k :: 0 < k <= i ==> ps[k] == ps[1..][k - 1];
      assert FirstMissing(ps, known, i + 1, j, r.package, r.dependency);
    }
  }

  function FirstUnknown(deps: seq<string>, known: set<string>): (r: seq<string>)
    ensures r == [] <==> forall d :: d in deps ==> d in known
    ensures r != [] ==> r[0] in deps && r[0] !in known
    ensures r != [] ==> exists j :: 0 <= j < |deps| && deps[j] == r[0] && forall k :: 0 <= k < j ==> deps[k] in known
  {
    if deps == [] then []
    else if deps[0] !in known then [deps[0]]
    else FirstUnknown(deps[1..], known)
  }

  function Rounds(m: PackageMap, placed: set<string>, cmp: Comparator<Package>): SortResult
    requires m.Valid()
    decreases m.entries.Keys
  {
    if m.keys == [] then Ordered([])
    else
      var batch := Round(m, placed, cmp);
      if batch == [] then CouldNotOrder
      else
        RoundLists(m, placed, cmp);
        var names := Elements(Shorts(batch));
        assert batch[0].short in m.entries && Shorts(batch)[0] in names;
        match Rounds(m.DeleteAll(names), placed + names, cmp)
        case Ordered(rest) => Ordered(batch + rest)
        case other => other
  }

  function TopoSort(ps: seq<Package>, groupOrder: seq<string>, collate: Collation): SortResult {
    var m := ByName(ps);
    var check := FindMissing(ps, m.entries.Keys);
    if check.MissingPeer? then check else Rounds(m, {}, Precedence(groupOrder, collate))
  }

  // ----- correctness -----

  /** Where topoSort stands between two rounds: `all` is split into placed and remaining. */
  ghost predicate Halfway(all: map<string, Package>, m: PackageMap, placed: set<string>) {
    && m.Valid()
    && placed <= all.Keys
    && m.entries == all - placed
    && Closed(Dependencies(all), placed)
    && (forall k, d :: k in all && d in all[k].deps ==> d in all)
  }

  lemma RestOfGraph(all: map<string, Package>, m: PackageMap, placed: set<string>)
    requires Halfway(all, m, placed)
    ensures Rest(Dependencies(all), placed, m.Graph())
  {
  }

  /** A round always finds something to place: the "could not order" error is unreachable. */
  lemma RoundPlacesSomething(all: map<string, Package>, m: PackageMap, placed: set<string>, cmp: Comparator<Package>)
    requires Halfway(all, m, placed) && m.keys != []
    ensures Round(m, placed, cmp) != []
  {
    var ready := Ready(m.Values(), placed);
    ReadyLists(m, placed);
    SameElements(ready, Sort(ready, cmp));
    if ready == [] {
      var g := m.Graph();
      forall v | v in g ensures exists w :: Edge(g, v, w) {
        assert m.entries[v] !in ready;
        var d :| d in m.entries[v].deps && d !in placed;
        assert d in all;
        assert Edge(g, v, d);
      }
      assert m.keys[0] in Elements(m.keys);
      var s := SinkCycleExists(g, m.keys[0]);
      var c := SinkCyclesComplete(m, s);
    }
  }

  /** What a round places is a batch of the whole graph. */
  lemma RoundIsBatch(all: map<string, Package>, m: PackageMap, placed: set<string>, cmp: Comparator<Package>)
    requires Halfway(all, m, placed) && m.keys != []
    ensures Batch(Dependencies(all), placed, Shorts(Round(m, placed, cmp)))
  {
    var g := Dependencies(all);
    var ready := Ready(m.Values(), placed);
    var batch := Round(m, placed, cmp);
    RoundLists(m, placed, cmp);
    ReadyLists(m, placed);
    SameElements(ready, Sort(ready, cmp));
    ShortsElements(batch);
    if ready != [] {
      forall x, d | x in Shorts(batch) && x in g && d in g[x] ensures d in placed {
        assert x in Elements(Shorts(batch));
        assert m.entries[x] in ready;
      }
      assert ReadyBatch(g, placed, Shorts(batch));
    } else {
      RoundPlacesSomething(all, m, placed, cmp);
      RoundIsChosen(m, placed, cmp);
      var c := ChosenIsSinkCycle(m, cmp);
      CycleIsBatch(all, m, placed, c);
      SinkCyclesSound(m, c);
      CycleLists(m, c, cmp);
      SameBatch(g, placed, c, Shorts(batch));
    }
  }

  lemma SameBatch(g: Graph, placed: set<string>, b: seq<string>, c: seq<string>)
    requires CycleBatch(g, placed, b) && Distinct(c) && Elements(c) == Elements(b)
    ensures CycleBatch(g, placed, c)
  {
    forall x ensures x in b <==> x in c {
      assert x in Elements(b) <==> x in Elements(c);
    }
  }

  lemma CycleIsBatch(all: map<string, Package>, m: PackageMap, placed: set<string>, c: seq<string>)
    requires Halfway(all, m, placed) && c in SinkCycles(m)
    ensures CycleBatch(Dependencies(all), placed, c)
  {
    var g, h := Dependencies(all), m.Graph();
    SinkCyclesSound(m, c);
    RestOfGraph(all, m, placed);
    LiftComponent(g, placed, h, Elements(c));
    forall x, d | x in c && x in g && d in g[x] ensures d in placed || d in c {
      assert x in Elements(c) && x in h;
      assert d in all;
      if d !in placed {
        assert Edge(h, x, d);
        assert d in Elements(c);
      }
    }
  }

  lemma NextHalfway(all: map<string, Package>, m: PackageMap, placed: set<string>, ns: seq<string>, b: seq<string>)
    requires Halfway(all, m, placed) && placed == Elements(ns)
    requires PlacedWell(Dependencies(all), ns + b) && Elements(b) <= all.Keys
    ensures Halfway(all, m.DeleteAll(Elements(b)), placed + Elements(b))
  {
    assert Elements(ns + b) == placed + Elements(b);
    assert all - placed - Elements(b) == all - (placed + Elements(b));
  }

  /** The packages ps, placed after ns, complete an order of all packages. */
  ghost predicate Completes(all: map<string, Package>, ns: seq<string>, ps: seq<Package>) {
    && (forall p :: p in ps ==> p.short in all && all[p.short] == p)
    && PlacedWell(Dependencies(all), ns + Shorts(ps))
    && Elements(ns + Shorts(ps)) == all.Keys
  }

  lemma CompletesStep(all: map<string, Package>, m: PackageMap, ns: seq<string>, batch: seq<Package>,
                      rest: seq<Package>)
    requires Lists(m, batch) && (forall k :: k in m.entries ==> k in all && all[k] == m.entries[k])
    requires Completes(all, ns + Shorts(batch), rest)
    ensures Completes(all, ns, batch + rest)
  {
    assert ns + Shorts(batch + rest) == (ns + Shorts(batch)) + Shorts(rest);
  }

  lemma {:induction false} RoundsCorrect(all: map<string, Package>, m: PackageMap, placed: set<string>,
                                         ns: seq<string>, cmp: Comparator<Package>)
    requires Halfway(all, m, placed) && placed == Elements(ns) && PlacedWell(Dependencies(all), ns)
    ensures Rounds(m, placed, cmp).Ordered? && Completes(all, ns, Rounds(m, placed, cmp).packages)
    decreases m.entries.Keys
  {
    hide PlacedWell, Batch;
    var g := Dependencies(all);
    if m.keys == [] {
      AllPlaced(all, m, placed);
      assert ns + Shorts([]) == ns;
    } else {
      RoundPlacesSomething(all, m, placed, cmp);
      RoundIsBatch(all, m, placed, cmp);
      RoundLists(m, placed, cmp);
      var batch := Round(m, placed, cmp);
      var b := Shorts(batch);
      assert batch[0].short in m.entries && b[0] in Elements(b);
      BatchKnown(m, batch);
      AppendBatch(g, ns, b);
      NextHalfway(all, m, placed, ns, b);
      RoundsCorrect(all, m.DeleteAll(Elements(b)), placed + Elements(b), ns + b, cmp);
      var rest := Rounds(m.DeleteAll(Elements(b)), placed + Elements(b), cmp).packages;
      CompletesStep(all, m, ns, batch, rest);
    }
  }

  lemma AllPlaced(all: map<string, Package>, m: PackageMap, placed: set<string>)
    requires m.Valid() && m.keys == [] && placed <= all.Keys && m.entries == all - placed
    ensures placed == all.Keys
  {
    assert Elements(m.keys) == {};
    forall k | k in all ensures k in placed {
      assert k !in m.entries;
    }
  }

  lemma BatchKnown(m: PackageMap, batch: seq<Package>)
    requires Lists(m, batch)
    ensures Elements(Shorts(batch)) <= m.entries.Keys
  {
  }

  /** The package graph the sort works on: of packages that share a short name, the last one. */
  function GraphOf(ps: seq<Package>): Graph {
    ByName(ps).Graph()
  }

  lemma StartHalfway(m: PackageMap)
    requires m.Valid() && forall k, d :: k in m.entries && d in m.entries[k].deps ==> d in m.entries
    ensures Halfway(m.entries, m, {}) && Elements<string>([]) == {} && PlacedWell(m.Graph(), [])
  {
    assert m.entries - {} == m.entries;
  }

  lemma KnownShorts(ps: seq<Package>, known: set<string>)
    requires known == Elements(Shorts(ps))
    ensures forall d :: d in known <==> d in Shorts(ps)
  {
  }

  /** topoSort fails exactly on a missing peer. Otherwise its result lists every package once, puts
      each package after its dependencies except inside a dependency cycle, and keeps every
      strongly connected component of the dependency graph in one unbroken block. */
  lemma TopoSortCorrect(ps: seq<Package>, groupOrder: seq<string>, collate: Collation)
    ensures var r := TopoSort(ps, groupOrder, collate);
            var missing := exists p, d :: p in ps && d in p.deps && d !in Shorts(ps);
            && !r.CouldNotOrder?
            && (r.MissingPeer? <==> missing)
            && (r.MissingPeer? ==> r.package in ps && r.dependency in r.package.deps && r.dependency !in Shorts(ps))
            && (r.Ordered? ==>
                  && Elements(Shorts(r.packages)) == Elements(Shorts(ps))
                  && (forall p :: p in r.packages ==> p in ps)
                  && PlacedWell(GraphOf(ps), Shorts(r.packages)))
  {
    var m := ByName(ps);
    KnownShorts(ps, m.entries.Keys);
    if FindMissing(ps, m.entries.Keys).Ordered? { SortedWell(ps, groupOrder, collate); }
    hide PlacedWell, Rounds, Precedence, Elements, Shorts;
  }

  lemma RoundsFromStart(m: PackageMap, cmp: Comparator<Package>)
    requires m.Valid() && forall k, d :: k in m.entries && d in m.entries[k].deps ==> d in m.entries
    ensures var r := Rounds(m, {}, cmp);
            && r.Ordered? && Elements(Shorts(r.packages)) == m.entries.Keys
            && (forall p :: p in r.packages ==> p.short in m.entries && m.entries[p.short] == p)
            && PlacedWell(Dependencies(m.entries), Shorts(r.packages))
  {
    hide PlacedWell, Halfway;
    StartHalfway(m);
    RoundsCorrect(m.entries, m, {}, [], cmp);
    var out := Rounds(m, {}, cmp).packages;
    assert [] + Shorts(out) == Shorts(out);
  }

  lemma SortedWell(ps: seq<Package>, groupOrder: seq<string>, collate: Collation)
    requires FindMissing(ps, ByName(ps).entries.Keys).Ordered?
    ensures var r := TopoSort(ps, groupOrder, collate);
            && r.Ordered? && Elements(Shorts(r.packages)) == Elements(Shorts(ps))
            && (forall p :: p in r.packages ==> p in ps)
            && PlacedWell(GraphOf(ps), Shorts(r.packages))
  {
    hide PlacedWell, Rounds, Precedence, ByName, FindMissing, Elements, Shorts;
    RoundsFromStart(ByName(ps), Precedence(groupOrder, collate));
  }

  /** With unique short names the result is a permutation of the input. */
  lemma TopoSortPermutes(ps: seq<Package>, groupOrder: seq<string>, collate: Collation)
    requires Distinct(Shorts(ps))
    ensures var r := TopoSort(ps, groupOrder, collate); r.Ordered? ==> multiset(r.packages) == multiset(ps)
  {
    var r := TopoSort(ps, groupOrder, collate);
    TopoSortCorrect(ps, groupOrder, collate);
    if r.Ordered? {
      var out := r.packages;
      ShortsElements(out);
      ShortsElements(ps);
      forall p ensures p in out <==> p in ps {
        if p in ps {
          assert p.short in Elements(Shorts(out));
          var q :| q in out && q.short == p.short;
          UniqueShort(ps, p, q);
        }
      }
      PackagesDistinct(ps);
      PackagesDistinct(out);
      DistinctPermutation(out, ps);
    }
  }

  lemma UniqueShort(ps: seq<Package>, p: Package, q: Package)
    requires Distinct(Shorts(ps)) && p in ps && q in ps && p.short == q.short
    ensures p == q
  {
    var i :| 0 <= i < |ps| && ps[i] == p;
    var j :| 0 <= j < |ps| && ps[j] == q;
    assert Shorts(ps)[i] == Shorts(ps)[j];
  }

  lemma PackagesDistinct(ps: seq<Package>)
    requires Distinct(Shorts(ps))
    ensures Distinct(ps)
  {
    forall i, j | 0 <= i < j < |ps| ensures ps[i] != ps[j] {
      assert Shorts(ps)[i] != Shorts(ps)[j];
    }
  }

  // ----- determinism -----

  lemma ListsSeparated(m: PackageMap, ps: seq<Package>, groupOrder: seq<string>, collate: Collation)
    requires IsCollation(collate) && Lists(m, ps)
    ensures Separates(Precedence(groupOrder, collate), ps)
  {
    PrecedenceTotal(groupOrder, collate);
  }

  /** Two lists of the same packages sort alike. */
  lemma ListsSortAlike(m: PackageMap, s: seq<Package>, t: seq<Package>, groupOrder: seq<string>, collate: Collation)
    requires IsCollation(collate) && Lists(m, s) && Lists(m, t) && forall p :: p in s <==> p in t
    ensures Sort(s, Precedence(groupOrder, collate)) == Sort(t, Precedence(groupOrder, collate))
  {
    PrecedenceTotal(groupOrder, collate);
    ListsSeparated(m, s, groupOrder, collate);
    ShortsDistinct(m, s);
    ShortsDistinct(m, t);
    DistinctPermutation(s, t);
    SortUnique(s, t, Precedence(groupOrder, collate));
  }

  lemma HeadOrderTotal(cmp: Comparator<Package>)
    requires Total(cmp)
    ensures Total(HeadOrder(cmp))
  {
    forall a: Cycle, b: Cycle ensures Signs(HeadOrder(cmp), a, b) {
      assert Signs(cmp, a[0], b[0]);
    }
    forall a: Cycle, b: Cycle, c: Cycle ensures Chains(HeadOrder(cmp), a, b, c) {
      assert Chains(cmp, a[0], b[0], c[0]);
    }
  }

  /** No candidate's head precedes the head of the first cycle. */
  lemma FirstCycleLeast(cycles: seq<Cycle>, c: Cycle, cmp: Comparator<Package>)
    requires Total(cmp) && c in cycles
    ensures FirstCycle(cycles, cmp) != [] && cmp(FirstCycle(cycles, cmp)[0], c[0]) <= 0
  {
    HeadOrderTotal(cmp);
    SortHead(cycles, HeadOrder(cmp));
  }

  lemma ChosenLeast(m: PackageMap, d: seq<string>, cmp: Comparator<Package>)
    requires Total(cmp) && m.Valid() && d in SinkCycles(m)
    ensures ChosenCycle(m, cmp) != [] && cmp(ChosenCycle(m, cmp)[0], SortedCycle(m, d, cmp)[0]) <= 0
  {
    hide Total;
    var cs := SinkCycles(m);
    var i :| 0 <= i < |cs| && cs[i] == d;
    assert SortedCycles(m, cs, cmp)[i] == SortedCycle(m, d, cmp);
    FirstCycleLeast(SortedCycles(m, cs, cmp), SortedCycle(m, d, cmp), cmp);
  }

  /** The chosen cycle begins with a least package of all sink cycles. */
  lemma ChosenCycleLeast(m: PackageMap, d: seq<string>, n: string, cmp: Comparator<Package>)
    requires Total(cmp) && m.Valid() && d in SinkCycles(m) && n in d
    ensures n in m.entries && ChosenCycle(m, cmp) != [] && cmp(ChosenCycle(m, cmp)[0], m.entries[n]) <= 0
  {
    hide ChosenCycle, Sort, SinkCycles, SinkCycleSet, Distinct, Total;
    SinkCyclesSound(m, d);
    ChosenLeast(m, d, cmp);
    CycleHeadLeast(m, d, n, cmp);
    ChainOf(cmp, ChosenCycle(m, cmp)[0], SortedCycle(m, d, cmp)[0], m.entries[n]);
  }

  lemma ChainOf<T(!new)>(cmp: Comparator<T>, a: T, b: T, c: T)
    requires Total(cmp) && cmp(a, b) <= 0 && cmp(b, c) <= 0
    ensures cmp(a, c) <= 0
  {
    assert Chains(cmp, a, b, c);
  }

  lemma CycleHeadLeast(m: PackageMap, d: seq<string>, n: string, cmp: Comparator<Package>)
    requires Total(cmp) && Known(m, d) && n in d
    ensures cmp(SortedCycle(m, d, cmp)[0], m.entries[n]) <= 0
  {
    hide Sort, Total;
    var ps := m.Named(d);
    SortHead(ps, cmp);
    var i :| 0 <= i < |d| && d[i] == n;
    assert ps[i] in ps;
  }

  /** The cycle chosen from m2 comes no later than any candidate of m1. */
  lemma ChosenNotAfter(m1: PackageMap, m2: PackageMap, c: seq<string>, groupOrder: seq<string>, collate: Collation)
    requires IsCollation(collate) && m1.Valid() && m2.Valid() && m1.entries == m2.entries && c in SinkCycles(m1)
    ensures var cmp := Precedence(groupOrder, collate);
            ChosenCycle(m2, cmp) != [] && cmp(ChosenCycle(m2, cmp)[0], SortedCycle(m1, c, cmp)[0]) <= 0
  {
    hide Total, IsCollation, SinkCycleSet, Distinct, ChosenCycle;
    SinkCyclesSound(m1, c);
    var d := SinkCyclesComplete(m2, Elements(c));
    SinkCyclesSound(m2, d);
    CyclesSortAlike(m1, m2, c, d, groupOrder, collate);
    PrecedenceTotal(groupOrder, collate);
    ChosenLeast(m2, d, Precedence(groupOrder, collate));
  }

  lemma ChosenAlike(m1: PackageMap, m2: PackageMap, groupOrder: seq<string>, collate: Collation)
    requires IsCollation(collate) && m1.Valid() && m2.Valid() && m1.entries == m2.entries
    ensures ChosenCycle(m1, Precedence(groupOrder, collate)) == ChosenCycle(m2, Precedence(groupOrder, collate))
  {
    hide Total, IsCollation, SinkCycleSet, Distinct, ChosenCycle;
    var cmp := Precedence(groupOrder, collate);
    if ChosenCycle(m1, cmp) != [] {
      var c := ChosenIsSinkCycle(m1, cmp);
      ChosenNotAfter(m1, m2, c, groupOrder, collate);
      var d := ChosenIsSinkCycle(m2, cmp);
      ChosenNotAfter(m2, m1, d, groupOrder, collate);
      SinkCyclesSound(m1, c);
      SinkCyclesSound(m2, d);
      SameHead(SortedCycle(m1, c, cmp), SortedCycle(m2, d, cmp), groupOrder, collate);
      SameHeadSameCycle(m1, m2, c, d, cmp);
      CyclesSortAlike(m1, m2, c, d, groupOrder, collate);
    } else if ChosenCycle(m2, cmp) != [] {
      var d := ChosenIsSinkCycle(m2, cmp);
      ChosenNotAfter(m2, m1, d, groupOrder, collate);
    }
  }

  lemma SameHead(a: Cycle, b: Cycle, groupOrder: seq<string>, collate: Collation)
    requires IsCollation(collate)
    requires var cmp := Precedence(groupOrder, collate); cmp(a[0], b[0]) <= 0 && cmp(b[0], a[0]) <= 0
    ensures a[0].short == b[0].short
  {
    hide IsCollation;
    PrecedenceTotal(groupOrder, collate);
    assert Signs(Precedence(groupOrder, collate), a[0], b[0]);
  }

  lemma CyclesSortAlike(m1: PackageMap, m2: PackageMap, c: seq<string>, d: seq<string>,
                        groupOrder: seq<string>, collate: Collation)
    requires IsCollation(collate) && m1.Valid() && m2.Valid() && m1.entries == m2.entries
    requires Known(m1, c) && Known(m2, d) && Distinct(c) && Distinct(d) && Elements(c) == Elements(d)
    ensures SortedCycle(m1, c, Precedence(groupOrder, collate)) == SortedCycle(m2, d, Precedence(groupOrder, collate))
  {
    var ps, qs := m1.Named(c), m2.Named(d);
    NamedLists(m1, c);
    NamedLists(m2, d);
    forall p ensures p in ps <==> p in qs {
      assert p.short in Elements(c) <==> p.short in Elements(d);
    }
    ListsSortAlike(m1, ps, qs, groupOrder, collate);
  }

  lemma NamedLists(m: PackageMap, c: seq<string>)
    requires m.Valid() && Known(m, c) && Distinct(c)
    ensures Lists(m, m.Named(c))
    ensures forall p :: p in m.Named(c) <==> p.short in c && m.entries[p.short] == p
  {
    var ps := m.Named(c);
    assert Shorts(ps) == c by {
      forall i | 0 <= i < |c| ensures ps[i].short == c[i] { assert c[i] in c; }
    }
    forall p | p in ps ensures p.short in c && m.entries[p.short] == p {
      var i :| 0 <= i < |ps| && ps[i] == p;
      assert c[i] in c;
    }
    forall p: Package | p.short in c && m.entries[p.short] == p ensures p in ps {
      var i :| 0 <= i < |c| && c[i] == p.short;
      assert ps[i] == p;
    }
  }

  lemma RoundAlike(m1: PackageMap, m2: PackageMap, placed: set<string>, groupOrder: seq<string>, collate: Collation)
    requires IsCollation(collate) && m1.Valid() && m2.Valid() && m1.entries == m2.entries
    ensures Round(m1, placed, Precedence(groupOrder, collate)) == Round(m2, placed, Precedence(groupOrder, collate))
  {
    var cmp := Precedence(groupOrder, collate);
    var r1, r2 := Ready(m1.Values(), placed), Ready(m2.Values(), placed);
    ReadyLists(m1, placed);
    ReadyLists(m2, placed);
    ListsSortAlike(m1, r1, r2, groupOrder, collate);
    SameElements(r1, Sort(r1, cmp));
    SameElements(r2, Sort(r2, cmp));
    if r1 == [] {
      RoundIsChosen(m1, placed, cmp);
      RoundIsChosen(m2, placed, cmp);
      ChosenAlike(m1, m2, groupOrder, collate);
    }
  }

  lemma SameHeadSameCycle(m1: PackageMap, m2: PackageMap, c: seq<string>, d: seq<string>, cmp: Comparator<Package>)
    requires m1.Valid() && m2.Valid() && m1.entries == m2.entries
    requires Known(m1, c) && Known(m2, d) && Distinct(c) && Distinct(d)
    requires SinkCycleSet(m1.Graph(), Elements(c)) && SinkCycleSet(m2.Graph(), Elements(d))
    requires SortedCycle(m1, c, cmp)[0].short == SortedCycle(m2, d, cmp)[0].short
    ensures Elements(c) == Elements(d)
  {
    hide Distinct, IsComponent;
    CycleLists(m1, c, cmp);
    CycleLists(m2, d, cmp);
    var head := SortedCycle(m1, c, cmp)[0].short;
    assert Shorts(SortedCycle(m1, c, cmp))[0] in Elements(c);
    assert Shorts(SortedCycle(m2, d, cmp))[0] in Elements(d);
    ComponentsMeetOnce(m1.Graph(), Elements(c), Elements(d), head);
  }

  lemma {:induction false} RoundsAlike(m1: PackageMap, m2: PackageMap, placed: set<string>,
                                       groupOrder: seq<string>, collate: Collation)
    requires IsCollation(collate) && m1.Valid() && m2.Valid() && m1.entries == m2.entries
    ensures Rounds(m1, placed, Precedence(groupOrder, collate)) == Rounds(m2, placed, Precedence(groupOrder, collate))
    decreases m1.entries.Keys
  {
    hide IsCollation, Round;
    var cmp := Precedence(groupOrder, collate);
    RoundAlike(m1, m2, placed, groupOrder, collate);
    assert m1.keys != [] ==> m1.keys[0] in Elements(m1.keys);
    assert m2.keys != [] ==> m2.keys[0] in Elements(m2.keys);
    var batch := Round(m1, placed, cmp);
    if m1.keys != [] && batch != [] {
      RoundLists(m1, placed, cmp);
      var names := Elements(Shorts(batch));
      assert batch[0].short in m1.entries && Shorts(batch)[0] in names;
      RoundsAlike(m1.DeleteAll(names), m2.DeleteAll(names), placed + names, groupOrder, collate);
    }
  }

  lemma {:induction false} ByNameEntries(ps: seq<Package>)
    requires Distinct(Shorts(ps))
    ensures forall p :: p in ps <==> p.short in ByName(ps).entries && ByName(ps).entries[p.short] == p
  {
    forall p ensures p in ps <==> p.short in ByName(ps).entries && ByName(ps).entries[p.short] == p {
      if p in ps {
        ShortsElements(ps);
        UniqueShort(ps, p, ByName(ps).entries[p.short]);
      }
    }
  }

  /** Whether packages can be ordered, and their order, do not depend on the order in which they are
      listed. (Which missing peer an error names does.) */
  lemma TopoSortIgnoresInputOrder(ps: seq<Package>, qs: seq<Package>, groupOrder: seq<string>, collate: Collation)
    requires IsCollation(collate) && multiset(ps) == multiset(qs) && Distinct(Shorts(ps))
    ensures var r, t := TopoSort(ps, groupOrder, collate), TopoSort(qs, groupOrder, collate);
            (r.Ordered? <==> t.Ordered?) && (r.Ordered? ==> r == t)
  {
    hide IsCollation, Rounds, PlacedWell;
    SameElements(ps, qs);
    PermutedShorts(ps, qs);
    SameEntries(ps, qs);
    SameShorts(ps, qs);
    RoundsAlike(ByName(ps), ByName(qs), {}, groupOrder, collate);
    TopoSortCorrect(ps, groupOrder, collate);
    TopoSortCorrect(qs, groupOrder, collate);
  }

  lemma PermutedShorts(ps: seq<Package>, qs: seq<Package>)
    requires multiset(ps) == multiset(qs) && Distinct(Shorts(ps))
    ensures Distinct(Shorts(qs))
  {
    SameElements(ps, qs);
    PackagesDistinct(ps);
    DistinctByCount(ps);
    DistinctByCount(qs);
    forall i, j | 0 <= i < j < |qs| ensures Shorts(qs)[i] != Shorts(qs)[j] {
      assert qs[i] in ps && qs[j] in ps;
      if qs[i].short == qs[j].short { UniqueShort(ps, qs[i], qs[j]); }
    }
  }

  lemma SameEntries(ps: seq<Package>, qs: seq<Package>)
    requires Distinct(Shorts(ps)) && Distinct(Shorts(qs)) && multiset(ps) == multiset(qs)
    ensures ByName(ps).entries == ByName(qs).entries
  {
    hide ByName;
    SameElements(ps, qs);
    ByNameEntries(ps);
    ByNameEntries(qs);
    SameShorts(ps, qs);
    var m, n := ByName(ps), ByName(qs);
    forall k | k in m.entries ensures m.entries[k] == n.entries[k] {
      assert m.entries[k] in ps;
    }
  }
}
