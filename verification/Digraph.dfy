/** Finite directed graphs: reachability, strongly connected components, sinks. */
module Digraph {

  /** Adjacency lists; a successor that is not a key is no edge of the graph. */
  type Graph = map<string, seq<string>>

  predicate Edge(g: Graph, a: string, b: string) {
    a in g && b in g && b in g[a]
  }

  /** Some path of exactly n edges leads from a to b. */
  ghost predicate ReachIn(g: Graph, a: string, b: string, n: nat)
    decreases n
  {
    if n == 0 then a == b && a in g
    else exists c :: Edge(g, a, c) && ReachIn(g, c, b, n - 1)
  }

  /** A path of zero or more edges leads from a to b. */
  ghost predicate Reach(g: Graph, a: string, b: string) {
    exists n :: ReachIn(g, a, b, n)
  }

  /** Mutual reachability: a and b lie in one strongly connected component. */
  ghost predicate Linked(g: Graph, a: string, b: string) {
    Reach(g, a, b) && Reach(g, b, a)
  }

  ghost function Component(g: Graph, a: string): set<string> {
    set b | b in g && Linked(g, a, b)
  }

  /** A strongly connected component, said without naming a representative:
      non-empty, mutually reachable, and maximal with that property. */
  ghost predicate IsComponent(g: Graph, c: set<string>) {
    && c != {}
    && c <= g.Keys
    && (forall a, b {:trigger Reach(g, a, b)} :: a in c && b in c ==> Reach(g, a, b))
    && (forall a, b {:trigger Linked(g, a, b)} :: a in c && b in g && Linked(g, a, b) ==> b in c)
  }

  /** No edge of the graph leaves c. */
  ghost predicate Closed(g: Graph, c: set<string>) {
    forall a, b {:trigger Edge(g, a, b)} :: a in c && Edge(g, a, b) ==> b in c
  }

  lemma {:induction false} ReachInNodes(g: Graph, a: string, b: string, n: nat)
    requires ReachIn(g, a, b, n)
    ensures a in g && b in g
    decreases n
  {
    if n > 0 {
      var c :| Edge(g, a, c) && ReachIn(g, c, b, n - 1);
      ReachInNodes(g, c, b, n - 1);
    }
  }

  lemma ReachNodes(g: Graph, a: string, b: string)
    requires Reach(g, a, b)
    ensures a in g && b in g
  {
    var n :| ReachIn(g, a, b, n);
    ReachInNodes(g, a, b, n);
  }

  lemma ReachSelf(g: Graph, a: string)
    requires a in g
    ensures Reach(g, a, a)
  {
    assert ReachIn(g, a, a, 0);
  }

  lemma ReachStep(g: Graph, a: string, b: string)
    requires Edge(g, a, b)
    ensures Reach(g, a, b)
  {
    assert ReachIn(g, b, b, 0);
    assert ReachIn(g, a, b, 1);
  }

  lemma {:induction false} ReachInTrans(g: Graph, a: string, b: string, c: string, m: nat, n: nat)
    requires ReachIn(g, a, b, m) && ReachIn(g, b, c, n)
    ensures ReachIn(g, a, c, m + n)
    decreases m
  {
    if m > 0 {
      var x :| Edge(g, a, x) && ReachIn(g, x, b, m - 1);
      ReachInTrans(g, x, b, c, m - 1, n);
      assert ReachIn(g, x, c, m + n - 1);
    }
  }

  lemma ReachTrans(g: Graph, a: string, b: string, c: string)
    requires Reach(g, a, b) && Reach(g, b, c)
    ensures Reach(g, a, c)
  {
    var m :| ReachIn(g, a, b, m);
    var n :| ReachIn(g, b, c, n);
    ReachInTrans(g, a, b, c, m, n);
  }

  lemma {:induction false} ReachInExit(g: Graph, c: set<string>, a: string, b: string, n: nat)
    returns (x: string, y: string)
    requires ReachIn(g, a, b, n) && a in c && b !in c
    ensures x in c && y !in c && Edge(g, x, y) && Reach(g, a, x) && Reach(g, y, b)
    decreases n
  {
    var z :| Edge(g, a, z) && ReachIn(g, z, b, n - 1);
    if z in c {
      x, y := ReachInExit(g, c, z, b, n - 1);
      ReachStep(g, a, z);
      ReachTrans(g, a, z, x);
    } else {
      x, y := a, z;
      ReachSelf(g, a);
    }
  }

  /** A path that leaves a set crosses its border along one edge. */
  lemma ReachExit(g: Graph, c: set<string>, a: string, b: string) returns (x: string, y: string)
    requires Reach(g, a, b) && a in c && b !in c
    ensures x in c && y !in c && Edge(g, x, y) && Reach(g, a, x) && Reach(g, y, b)
  {
    var n :| ReachIn(g, a, b, n);
    x, y := ReachInExit(g, c, a, b, n);
  }

  /** Reachability cannot escape a closed set. */
  lemma ReachClosed(g: Graph, c: set<string>, a: string, b: string)
    requires Closed(g, c) && a in c && Reach(g, a, b)
    ensures b in c
  {
    if b !in c {
      var x, y := ReachExit(g, c, a, b);
      assert false;
    }
  }

  lemma ComponentIsComponent(g: Graph, a: string)
    requires a in g
    ensures a in Component(g, a) && IsComponent(g, Component(g, a))
  {
    ReachSelf(g, a);
    var c := Component(g, a);
    forall x, y | x in c && y in c ensures Reach(g, x, y) {
      ReachTrans(g, x, a, y);
    }
    forall x, y | x in c && y in g && Linked(g, x, y) ensures y in c {
      ReachTrans(g, a, x, y);
      ReachTrans(g, y, x, a);
    }
  }

  /** A component is the component of each of its members. */
  lemma ComponentUnique(g: Graph, c: set<string>, a: string)
    requires IsComponent(g, c) && a in c
    ensures c == Component(g, a)
  {
    forall b | b in c ensures b in Component(g, a) {
      assert Reach(g, a, b) && Reach(g, b, a);
    }
  }

  /** Components of one graph are equal or disjoint. */
  lemma ComponentsMeetOnce(g: Graph, c: set<string>, d: set<string>, a: string)
    requires IsComponent(g, c) && IsComponent(g, d) && a in c && a in d
    ensures c == d
  {
    ComponentUnique(g, c, a);
    ComponentUnique(g, d, a);
  }

  ghost function ReachSet(g: Graph, a: string): set<string> {
    set b | b in g && Reach(g, a, b)
  }

  lemma ReachSetShrinks(g: Graph, a: string, b: string)
    requires Reach(g, a, b)
    ensures ReachSet(g, b) <= ReachSet(g, a)
  {
    forall c | c in ReachSet(g, b) ensures c in ReachSet(g, a) {
      ReachTrans(g, a, b, c);
    }
  }

  lemma SubsetCardinality<T>(a: set<T>, b: set<T>)
    requires a <= b
    ensures |a| <= |b|
    ensures |a| == |b| ==> a == b
  {
    assert b == a + (b - a);
    assert |b| == |a| + |b - a|;
  }

  /** Every node leads into a component with no way out. */
  lemma {:induction false} SinkReachable(g: Graph, a: string) returns (s: string)
    requires a in g
    ensures Reach(g, a, s) && Closed(g, Component(g, s))
    decreases |ReachSet(g, a)|
  {
    ReachSelf(g, a);
    if b :| b in ReachSet(g, a) && a !in ReachSet(g, b) {
      ReachSetShrinks(g, a, b);
      SubsetCardinality(ReachSet(g, b), ReachSet(g, a));
      s := SinkReachable(g, b);
      ReachTrans(g, a, b, s);
    } else {
      s := a;
      forall x, y | x in Component(g, a) && Edge(g, x, y) ensures y in Component(g, a) {
        ReachStep(g, x, y);
        ReachTrans(g, a, x, y);
        assert y in ReachSet(g, a);
      }
    }
  }
}
