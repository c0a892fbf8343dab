/** What `topoSort` returns, said round by round and without its functions: which packages stand
    together, and in which order they stand there. There is exactly one list of that kind. */
module PackageRounds {
  import opened Digraph
  import opened LayeredOrder
  import opened Packages
  import opened PackageOrder
  import opened Sorting

  // ----- the order of two packages -----

  /** The group g is listed, and h is listed later or not at all. */
  ghost predicate GroupBefore(g: string, h: string, groupOrder: seq<string>) {
    exists i :: 0 <= i < |groupOrder| && groupOrder[i] == g && h !in groupOrder[..i + 1]
  }

  /** The caller's group order decides first, listed groups before others; then the names of the groups;
      then the short names. */
  ghost predicate InOrder(a: Package, b: Package, groupOrder: seq<string>, collate: Collation) {
    if GroupBefore(a.group, b.group, groupOrder) then true
    else if GroupBefore(b.group, a.group, groupOrder) then false
    else if a.group != b.group then collate(a.group, b.group) < 0
    else collate(a.short, b.short) <= 0
  }

  lemma RankOrder(g: string, h: string, groupOrder: seq<string>)
    requires |groupOrder| <= MAX_SAFE_INTEGER
    ensures Rank(g, groupOrder) < Rank(h, groupOrder) <==> GroupBefore(g, h, groupOrder)
  {
    var i := IndexOf(groupOrder, g);
    if GroupBefore(g, h, groupOrder) {
      var k :| 0 <= k < |groupOrder| && groupOrder[k] == g && h !in groupOrder[..k + 1];
      FirstIndex(groupOrder, g, k);
      FirstIndex(groupOrder, h, k);
    }
    if i != -1 { FirstIndex(groupOrder, h, i); }
  }

  lemma FirstIndex(s: seq<string>, x: string, k: nat)
    requires k < |s|
    ensures x in s[..k + 1] <==> 0 <= IndexOf(s, x) <= k
  {
    var i := IndexOf(s, x);
    if x in s[..k + 1] {
      var j :| 0 <= j < k + 1 && s[..k + 1][j] == x;
      assert s[j] == x;
    }
    assert 0 <= i <= k ==> s[..k + 1][i] == x;
  }

  /** A list longer than MAX_SAFE_INTEGER, which no JavaScript array is, would rank after the groups that
      are not listed. */
  lemma PrecedenceMeaning(a: Package, b: Package, groupOrder: seq<string>, collate: Collation)
    requires IsCollation(collate) && |groupOrder| <= MAX_SAFE_INTEGER
    ensures Precedence(groupOrder, collate)(a, b) <= 0 <==> InOrder(a, b, groupOrder, collate)
  {
    hide Rank, GroupBefore;
    RankOrder(a.group, b.group, groupOrder);
    RankOrder(b.group, a.group, groupOrder);
    assert Signs(collate, a.group, b.group) && Signs(collate, a.group, a.group);
  }

  // ----- the packages of a round -----

  /** Not placed yet, and all dependencies are. */
  ghost predicate IsReady(all: map<string, Package>, placed: set<string>, k: string) {
    k in all && k !in placed && forall d :: d in all[k].deps ==> d in placed
  }

  ghost function NamesOf(ps: seq<Package>): set<string> {
    set p | p in ps :: p.short
  }

  ghost predicate RoundInOrder(ps: seq<Package>, groupOrder: seq<string>, collate: Collation) {
    forall i, j :: 0 <= i < j < |ps| ==> ps[i].short != ps[j].short && InOrder(ps[i], ps[j], groupOrder, collate)
  }

  /** One round: all packages that are ready; or, where none is, the sink cycle of what remains that has
      the first package. */
  ghost predicate IsRound(all: map<string, Package>, placed: set<string>, ps: seq<Package>,
                          groupOrder: seq<string>, collate: Collation) {
    && ps != [] && RoundInOrder(ps, groupOrder, collate) && Waiting(all, placed, ps)
    && if exists k :: IsReady(all, placed, k) then forall k :: k in NamesOf(ps) <==> IsReady(all, placed, k)
       else IsFirstCycle(all, placed, ps, groupOrder, collate)
  }

  ghost predicate Waiting(all: map<string, Package>, placed: set<string>, ps: seq<Package>) {
    forall p :: p in ps ==> p.short in all && all[p.short] == p && p.short !in placed
  }

  ghost predicate IsFirstCycle(all: map<string, Package>, placed: set<string>, ps: seq<Package>,
                               groupOrder: seq<string>, collate: Collation)
    requires ps != []
  {
    && SinkCycleSet(Dependencies(all - placed), NamesOf(ps))
    && forall c, n :: SinkCycleSet(Dependencies(all - placed), c) && n in c ==>
         n in all && InOrder(ps[0], all[n], groupOrder, collate)
  }

  /** Round after round, until all packages are placed. */
  ghost predicate InRounds(all: map<string, Package>, placed: set<string>, ps: seq<Package>,
                           groupOrder: seq<string>, collate: Collation)
    decreases |ps|
  {
    if ps == [] then all.Keys <= placed
    else exists n :: 0 < n <= |ps| && FirstRound(all, placed, ps, n, groupOrder, collate)
  }

  ghost predicate FirstRound(all: map<string, Package>, placed: set<string>, ps: seq<Package>, n: nat,
                             groupOrder: seq<string>, collate: Collation)
    requires 0 < n <= |ps|
    decreases |ps|, 0
  {
    && IsRound(all, placed, ps[..n], groupOrder, collate)
    && InRounds(all, placed + NamesOf(ps[..n]), ps[n..], groupOrder, collate)
  }

  /** Of packages that share a short name, the last one counts. */
  ghost predicate IsLatest(ps: seq<Package>, all: map<string, Package>) {
    && (forall p :: p in ps ==> p.short in all)
    && (forall k :: k in all ==> exists i :: LatestAt(ps, k, i) && all[k] == ps[i])
  }

  ghost predicate LatestAt(ps: seq<Package>, k: string, i: int) {
    0 <= i < |ps| && ps[i].short == k && forall j :: i < j < |ps| ==> ps[j].short != k
  }

  lemma ByNameAdd(init: seq<Package>, last: Package)
    ensures ByName(init + [last]).entries == ByName(init).entries[last.short := last]
  {
    assert (init + [last])[..|init|] == init;
  }

  lemma {:induction false} ByNameLatest(ps: seq<Package>)
    ensures IsLatest(ps, ByName(ps).entries)
  {
    hide ByName;
    if ps == [] {
      assert Shorts(ps) == [];
    } else {
      var init, last := ps[..|ps| - 1], ps[|ps| - 1];
      ByNameLatest(init);
      ByNameAdd(init, last);
      LatestAdd(init, last, ByName(init).entries);
      assert init + [last] == ps;
    }
  }

  lemma LatestAdd(init: seq<Package>, last: Package, m: map<string, Package>)
    requires IsLatest(init, m)
    ensures IsLatest(init + [last], m[last.short := last])
  {
    var ps, m' := init + [last], m[last.short := last];
    forall k | k in m' ensures exists i :: LatestAt(ps, k, i) && m'[k] == ps[i] {
      if k == last.short {
        assert LatestAt(ps, k, |init|) && m'[k] == ps[|init|];
      } else {
        var i :| LatestAt(init, k, i) && m[k] == init[i];
        assert LatestAt(ps, k, i) && m'[k] == ps[i];
      }
    }
  }

  lemma LatestUnique(ps: seq<Package>, m: map<string, Package>, n: map<string, Package>)
    requires IsLatest(ps, m) && IsLatest(ps, n)
    ensures m == n
  {
    forall k ensures k in m <==> k in n {
      if k in m { var i :| LatestAt(ps, k, i) && m[k] == ps[i]; assert ps[i] in ps; }
      if k in n { var i :| LatestAt(ps, k, i) && n[k] == ps[i]; assert ps[i] in ps; }
    }
    forall k | k in m ensures m[k] == n[k] {
      var i :| LatestAt(ps, k, i) && m[k] == ps[i];
      var j :| LatestAt(ps, k, j) && n[k] == ps[j];
    }
  }

  // ----- the rounds of `topoSort` are of that kind -----

  lemma NamesOfShorts(ps: seq<Package>)
    ensures NamesOf(ps) == Elements(Shorts(ps))
  {
    ShortsElements(ps);
  }

  lemma SortedInOrder(m: PackageMap, ps: seq<Package>, groupOrder: seq<string>, collate: Collation)
    requires IsCollation(collate) && |groupOrder| <= MAX_SAFE_INTEGER && Lists(m, ps)
    ensures RoundInOrder(Sort(ps, Precedence(groupOrder, collate)), groupOrder, collate)
  {
    hide InOrder, Sort, Total, IsCollation;
    var cmp := Precedence(groupOrder, collate);
    var r := Sort(ps, cmp);
    PrecedenceTotal(groupOrder, collate);
    SortSorts(ps, cmp);
    SortLists(m, ps, cmp);
    forall i, j | 0 <= i < j < |r| ensures r[i].short != r[j].short && InOrder(r[i], r[j], groupOrder, collate) {
      assert Shorts(r)[i] != Shorts(r)[j];
      PrecedenceMeaning(r[i], r[j], groupOrder, collate);
    }
  }

  lemma ReadyNames(all: map<string, Package>, m: PackageMap, placed: set<string>, r: seq<Package>)
    requires Halfway(all, m, placed) && multiset(r) == multiset(Ready(m.Values(), placed))
    ensures forall k :: k in NamesOf(r) <==> IsReady(all, placed, k)
    ensures r != [] <==> exists k :: IsReady(all, placed, k)
  {
    ReadyIn(all, m, placed, r);
    HalfwayParts(all, m, placed);
    hide Ready, Halfway, Distinct;
    forall k ensures k in NamesOf(r) <==> IsReady(all, placed, k) {
      if IsReady(all, placed, k) {
        WaitingShort(all, m, placed, k);
        assert all[k] in r;
      }
    }
    assert r != [] ==> r[0] in r && r[0].short in NamesOf(r);
  }

  lemma ReadyIn(all: map<string, Package>, m: PackageMap, placed: set<string>, r: seq<Package>)
    requires Halfway(all, m, placed) && multiset(r) == multiset(Ready(m.Values(), placed))
    ensures forall p :: p in r <==> p.short in all && all[p.short] == p && IsReady(all, placed, p.short)
  {
    HalfwayParts(all, m, placed);
    hide Ready, Halfway, IsReady, Distinct;
    SameElements(r, Ready(m.Values(), placed));
    forall p ensures p in r <==> p.short in all && all[p.short] == p && IsReady(all, placed, p.short) {
      ReadyMember(all, m, placed, p);
    }
  }

  lemma WaitingShort(all: map<string, Package>, m: PackageMap, placed: set<string>, k: string)
    requires m.Valid() && m.entries == all - placed && k in all && k !in placed
    ensures all[k].short == k
  {
    assert k in m.entries;
  }

  lemma ReadyMember(all: map<string, Package>, m: PackageMap, placed: set<string>, p: Package)
    requires m.Valid() && m.entries == all - placed
    ensures p in Ready(m.Values(), placed) <==> p.short in all && all[p.short] == p && IsReady(all, placed, p.short)
  {
    ReadyLists(m, placed);
    hide Ready, Distinct, Lists;
  }

  lemma RoundWaiting(all: map<string, Package>, m: PackageMap, placed: set<string>, cmp: Comparator<Package>)
    requires Halfway(all, m, placed)
    ensures Waiting(all, placed, Round(m, placed, cmp))
  {
    RoundLists(m, placed, cmp);
    hide Round;
  }

  lemma ReadyIsRound(all: map<string, Package>, m: PackageMap, placed: set<string>,
                     groupOrder: seq<string>, collate: Collation)
    requires IsCollation(collate) && |groupOrder| <= MAX_SAFE_INTEGER && Halfway(all, m, placed)
    requires Ready(m.Values(), placed) != []
    ensures IsRound(all, placed, Round(m, placed, Precedence(groupOrder, collate)), groupOrder, collate)
  {
    hide Sort, IsCollation, IsReady, RoundInOrder, NamesOf, Ready, Waiting, Halfway, IsFirstCycle, Distinct;
    HalfwayParts(all, m, placed);
    var cmp := Precedence(groupOrder, collate);
    var ready := Ready(m.Values(), placed);
    ReadyLists(m, placed);
    SortedInOrder(m, ready, groupOrder, collate);
    SameElements(Sort(ready, cmp), ready);
    ReadyNames(all, m, placed, Sort(ready, cmp));
    RoundWaiting(all, m, placed, cmp);
  }

  lemma CycleIsRound(all: map<string, Package>, m: PackageMap, placed: set<string>,
                     groupOrder: seq<string>, collate: Collation)
    requires IsCollation(collate) && |groupOrder| <= MAX_SAFE_INTEGER && Halfway(all, m, placed) && m.keys != []
    requires Ready(m.Values(), placed) == []
    ensures IsRound(all, placed, Round(m, placed, Precedence(groupOrder, collate)), groupOrder, collate)
  {
    hide Sort, IsCollation, IsReady, RoundInOrder, NamesOf, Ready, Waiting, Halfway, IsFirstCycle, ChosenCycle,
         Distinct;
    HalfwayParts(all, m, placed);
    var cmp := Precedence(groupOrder, collate);
    RoundPlacesSomething(all, m, placed, cmp);
    RoundIsChosen(m, placed, cmp);
    ReadyNames(all, m, placed, []);
    RoundWaiting(all, m, placed, cmp);
    ChosenInOrder(m, groupOrder, collate);
    ChosenIsFirst(all, m, placed, groupOrder, collate);
  }

  lemma ChosenInOrder(m: PackageMap, groupOrder: seq<string>, collate: Collation)
    requires IsCollation(collate) && |groupOrder| <= MAX_SAFE_INTEGER && m.Valid()
    requires ChosenCycle(m, Precedence(groupOrder, collate)) != []
    ensures RoundInOrder(ChosenCycle(m, Precedence(groupOrder, collate)), groupOrder, collate)
  {
    hide Sort, IsCollation, RoundInOrder, ChosenCycle, Distinct, SinkCycleSet;
    var c := ChosenIsSinkCycle(m, Precedence(groupOrder, collate));
    SinkCyclesSound(m, c);
    NamedLists(m, c);
    SortedInOrder(m, m.Named(c), groupOrder, collate);
  }

  lemma ChosenIsFirst(all: map<string, Package>, m: PackageMap, placed: set<string>,
                      groupOrder: seq<string>, collate: Collation)
    requires IsCollation(collate) && |groupOrder| <= MAX_SAFE_INTEGER && m.Valid() && m.entries == all - placed
    requires ChosenCycle(m, Precedence(groupOrder, collate)) != []
    ensures IsFirstCycle(all, placed, ChosenCycle(m, Precedence(groupOrder, collate)), groupOrder, collate)
  {
    hide Sort, IsCollation, Total, InOrder, NamesOf, ChosenCycle, Distinct, SinkCycleSet, SinkCycles;
    var cmp := Precedence(groupOrder, collate);
    var r := ChosenCycle(m, cmp);
    var c := ChosenIsSinkCycle(m, cmp);
    SinkCyclesSound(m, c);
    CycleLists(m, c, cmp);
    NamesOfShorts(r);
    PrecedenceTotal(groupOrder, collate);
    forall s, n | SinkCycleSet(Dependencies(all - placed), s) && n in s
      ensures n in all && InOrder(r[0], all[n], groupOrder, collate)
    {
      var d := SinkCyclesComplete(m, s);
      assert n in Elements(d);
      ChosenCycleLeast(m, d, n, cmp);
      PrecedenceMeaning(r[0], all[n], groupOrder, collate);
    }
  }

  lemma {:induction false} RoundsInRounds(all: map<string, Package>, m: PackageMap, placed: set<string>,
                                          ns: seq<string>, groupOrder: seq<string>, collate: Collation)
    requires IsCollation(collate) && |groupOrder| <= MAX_SAFE_INTEGER
    requires Halfway(all, m, placed) && placed == Elements(ns) && PlacedWell(Dependencies(all), ns)
    ensures var r := Rounds(m, placed, Precedence(groupOrder, collate));
            r.Ordered? && InRounds(all, placed, r.packages, groupOrder, collate)
    decreases m.entries.Keys
  {
    hide PlacedWell, Batch, Round, IsCollation, IsRound, Halfway;
    var cmp := Precedence(groupOrder, collate);
    HalfwayParts(all, m, placed);
    if m.keys == [] {
      AllPlaced(all, m, placed);
    } else {
      var batch := Round(m, placed, cmp);
      if Ready(m.Values(), placed) != [] {
        ReadyIsRound(all, m, placed, groupOrder, collate);
      } else {
        CycleIsRound(all, m, placed, groupOrder, collate);
      }
      RoundPlacesSomething(all, m, placed, cmp);
      RoundIsBatch(all, m, placed, cmp);
      RoundLists(m, placed, cmp);
      var b := Shorts(batch);
      assert batch[0].short in m.entries && b[0] in Elements(b);
      BatchKnown(m, batch);
      AppendBatch(Dependencies(all), ns, b);
      NextHalfway(all, m, placed, ns, b);
      RoundsInRounds(all, m.DeleteAll(Elements(b)), placed + Elements(b), ns + b, groupOrder, collate);
      var rest := Rounds(m.DeleteAll(Elements(b)), placed + Elements(b), cmp).packages;
      NamesOfShorts(batch);
      RoundFirst(all, placed, batch, rest, groupOrder, collate);
    }
  }

  lemma HalfwayParts(all: map<string, Package>, m: PackageMap, placed: set<string>)
    requires Halfway(all, m, placed)
    ensures m.Valid() && placed <= all.Keys && m.entries == all - placed
  {
  }

  lemma RoundFirst(all: map<string, Package>, placed: set<string>, batch: seq<Package>, rest: seq<Package>,
                   groupOrder: seq<string>, collate: Collation)
    requires IsRound(all, placed, batch, groupOrder, collate) && batch != []
    requires InRounds(all, placed + NamesOf(batch), rest, groupOrder, collate)
    ensures InRounds(all, placed, batch + rest, groupOrder, collate)
  {
    hide IsRound;
    var ps, n := batch + rest, |batch|;
    assert ps[..n] == batch && ps[n..] == rest;
    assert FirstRound(all, placed, ps, n, groupOrder, collate);
  }

  // ----- there is just one list of that kind -----

  lemma SameRound(all: map<string, Package>, placed: set<string>, b: seq<Package>, c: seq<Package>,
                  groupOrder: seq<string>, collate: Collation)
    requires IsCollation(collate) && |groupOrder| <= MAX_SAFE_INTEGER
    requires IsRound(all, placed, b, groupOrder, collate) && IsRound(all, placed, c, groupOrder, collate)
    ensures b == c
  {
    hide InOrder, RoundInOrder, IsCollation;
    assert NamesOf(b) == NamesOf(c) by {
      if !exists k :: IsReady(all, placed, k) {
        assert b[0].short in NamesOf(b) && c[0].short in NamesOf(c);
        FirstUnique(b[0], c[0], groupOrder, collate);
        ComponentsMeetOnce(Dependencies(all - placed), NamesOf(b), NamesOf(c), b[0].short);
      }
    }
    assert forall p :: p in b <==> p in c by {
      forall p ensures p in b ==> p in c { if p in b { assert p.short in NamesOf(c); } }
      forall p ensures p in c ==> p in b { if p in c { assert p.short in NamesOf(b); } }
    }
    SameList(b, c, groupOrder, collate);
  }

  lemma FirstUnique(a: Package, b: Package, groupOrder: seq<string>, collate: Collation)
    requires IsCollation(collate) && |groupOrder| <= MAX_SAFE_INTEGER
    requires InOrder(a, b, groupOrder, collate) && InOrder(b, a, groupOrder, collate)
    ensures a.short == b.short
  {
    hide InOrder, IsCollation, Total;
    PrecedenceMeaning(a, b, groupOrder, collate);
    PrecedenceMeaning(b, a, groupOrder, collate);
    PrecedenceTotal(groupOrder, collate);
    assert Signs(Precedence(groupOrder, collate), a, b) by { TotalSigns(Precedence(groupOrder, collate), a, b); }
  }

  lemma TotalSigns<T(!new)>(cmp: Comparator<T>, a: T, b: T)
    requires Total(cmp)
    ensures Signs(cmp, a, b)
  {
  }

  lemma ShortsApart(b: seq<Package>, p: Package, q: Package, groupOrder: seq<string>, collate: Collation)
    requires RoundInOrder(b, groupOrder, collate) && p in b && q in b && p.short == q.short
    ensures p == q
  {
    hide InOrder;
    var i :| 0 <= i < |b| && b[i] == p;
    var j :| 0 <= j < |b| && b[j] == q;
  }

  lemma SameList(b: seq<Package>, c: seq<Package>, groupOrder: seq<string>, collate: Collation)
    requires IsCollation(collate) && |groupOrder| <= MAX_SAFE_INTEGER && forall p :: p in b <==> p in c
    requires RoundInOrder(b, groupOrder, collate) && RoundInOrder(c, groupOrder, collate)
    ensures b == c
  {
    hide IsCollation, Total, InOrder;
    var cmp := Precedence(groupOrder, collate);
    PrecedenceTotal(groupOrder, collate);
    DistinctPermutation(b, c);
    OrderSorts(b, groupOrder, collate);
    OrderSorts(c, groupOrder, collate);
    forall p, q | p in b && q in b && cmp(p, q) == 0 ensures p == q {
      ShortsApart(b, p, q, groupOrder, collate);
    }
    SortedUnique(b, c, cmp);
  }

  lemma OrderSorts(b: seq<Package>, groupOrder: seq<string>, collate: Collation)
    requires IsCollation(collate) && |groupOrder| <= MAX_SAFE_INTEGER && RoundInOrder(b, groupOrder, collate)
    ensures Sorted(b, Precedence(groupOrder, collate))
  {
    hide IsCollation, InOrder;
    forall i, j | 0 <= i < j < |b| ensures Precedence(groupOrder, collate)(b[i], b[j]) <= 0 {
      PrecedenceMeaning(b[i], b[j], groupOrder, collate);
    }
  }

  lemma {:induction false} RoundsUnique(all: map<string, Package>, placed: set<string>, ps: seq<Package>,
                                        qs: seq<Package>, groupOrder: seq<string>, collate: Collation)
    requires IsCollation(collate) && |groupOrder| <= MAX_SAFE_INTEGER
    requires InRounds(all, placed, ps, groupOrder, collate) && InRounds(all, placed, qs, groupOrder, collate)
    ensures ps == qs
    decreases |ps|
  {
    hide IsCollation, IsRound;
    if ps != [] && qs != [] {
      var n :| 0 < n <= |ps| && FirstRound(all, placed, ps, n, groupOrder, collate);
      var m :| 0 < m <= |qs| && FirstRound(all, placed, qs, m, groupOrder, collate);
      SameRound(all, placed, ps[..n], qs[..m], groupOrder, collate);
      RoundsUnique(all, placed + NamesOf(ps[..n]), ps[n..], qs[m..], groupOrder, collate);
      assert ps == ps[..n] + ps[n..] && qs == qs[..m] + qs[m..];
    } else if ps != [] {
      NotAllPlaced(all, placed, ps, groupOrder, collate);
    } else if qs != [] {
      NotAllPlaced(all, placed, qs, groupOrder, collate);
    }
  }

  lemma NotAllPlaced(all: map<string, Package>, placed: set<string>, ps: seq<Package>,
                     groupOrder: seq<string>, collate: Collation)
    requires ps != [] && InRounds(all, placed, ps, groupOrder, collate)
    ensures !(all.Keys <= placed)
  {
    var n :| 0 < n <= |ps| && FirstRound(all, placed, ps, n, groupOrder, collate);
    var p := ps[..n][0];
    assert p in ps[..n];
  }

  /** `topoSort` puts the packages in the caller's order exactly if it is the one list that goes round by
      round: every time all packages whose dependencies are placed, or, if there are none, the sink
      cycle with the first package; each round by the group order, the groups and the names. */
  lemma TopoSortExact(ps: seq<Package>, all: map<string, Package>, qs: seq<Package>,
                      groupOrder: seq<string>, collate: Collation)
    requires IsCollation(collate) && |groupOrder| <= MAX_SAFE_INTEGER && IsLatest(ps, all)
    requires forall p, d :: p in ps && d in p.deps ==> d in all
    ensures TopoSort(ps, groupOrder, collate) == Ordered(qs) <==> InRounds(all, {}, qs, groupOrder, collate)
  {
    hide IsCollation, InRounds, Rounds, PlacedWell;
    ByNameLatest(ps);
    LatestUnique(ps, all, ByName(ps).entries);
    StartHalfway(ByName(ps));
    RoundsInRounds(all, ByName(ps), {}, [], groupOrder, collate);
    var r := Rounds(ByName(ps), {}, Precedence(groupOrder, collate));
    if InRounds(all, {}, qs, groupOrder, collate) { RoundsUnique(all, {}, qs, r.packages, groupOrder, collate); }
  }

  /** The error names the first dependency, in list order, that no package of the list provides. */
  lemma MissingPeerExact(ps: seq<Package>, p: Package, d: string, groupOrder: seq<string>, collate: Collation)
    ensures TopoSort(ps, groupOrder, collate) == MissingPeer(p, d) <==>
            exists i, j :: FirstMissing(ps, NamesOf(ps), i, j, p, d)
  {
    hide Rounds, FirstMissing;
    NamesOfShorts(ps);
    var known := ByName(ps).entries.Keys;
    var check := FindMissing(ps, known);
    if check.MissingPeer? {
      var i, j :| FirstMissing(ps, known, i, j, check.package, check.dependency);
      forall k, l | FirstMissing(ps, known, k, l, p, d) ensures check == MissingPeer(p, d) {
        OneFirstMissing(ps, known, i, j, k, l, check.package, check.dependency, p, d);
      }
    } else {
      forall i, j | FirstMissing(ps, known, i, j, p, d) ensures false { SomethingMissing(ps, known, i, j, p, d); }
      KnownShorts(ps, known);
      TopoSortCorrect(ps, groupOrder, collate);
    }
  }

  lemma OneFirstMissing(ps: seq<Package>, known: set<string>, i: int, j: int, k: int, l: int, p: Package, d: string,
                        q: Package, e: string)
    requires FirstMissing(ps, known, i, j, p, d) && FirstMissing(ps, known, k, l, q, e)
    ensures p == q && d == e
  {
    assert d in p.deps && e in q.deps;
  }

  lemma SomethingMissing(ps: seq<Package>, known: set<string>, i: int, j: int, p: Package, d: string)
    requires FirstMissing(ps, known, i, j, p, d)
    ensures p in ps && d in p.deps && d !in known
  {
  }
}
