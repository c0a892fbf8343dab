/** Dependency-first orders of a cyclic graph, built from the front in batches. */
module LayeredOrder {
  import opened Digraph
  import opened Packages

  /** Each successor of ns[i] stands before i or is linked to ns[i]. */
  ghost predicate DependencyFirst(g: Graph, ns: seq<string>) {
    forall i, d :: 0 <= i < |ns| && ns[i] in g && d in g[ns[i]] ==> d in ns[..i] || Linked(g, ns[i], d)
  }

  /** A component of g that meets ns occupies one unbroken stretch of it. */
  ghost predicate Contiguous(g: Graph, ns: seq<string>) {
    forall i, j, k {:trigger Linked(g, ns[i], ns[k]), ns[j]} ::
      0 <= i < j < k < |ns| && Linked(g, ns[i], ns[k]) ==> Linked(g, ns[i], ns[j])
  }

  /** What holds of the nodes placed so far. */
  ghost predicate PlacedWell(g: Graph, ns: seq<string>) {
    && Distinct(ns)
    && Elements(ns) <= g.Keys
    && Closed(g, Elements(ns))
    && DependencyFirst(g, ns)
    && Contiguous(g, ns)
  }

  /** Nodes whose successors are all placed. */
  ghost predicate ReadyBatch(g: Graph, placed: set<string>, b: seq<string>) {
    && Distinct(b)
    && Elements(b) <= g.Keys - placed
    && (forall x, d :: x in b && x in g && d in g[x] ==> d in placed)
  }

  /** One whole component whose other successors are all placed. */
  ghost predicate CycleBatch(g: Graph, placed: set<string>, b: seq<string>) {
    && Distinct(b)
    && Elements(b) <= g.Keys - placed
    && IsComponent(g, Elements(b))
    && (forall x, d :: x in b && x in g && d in g[x] ==> d in placed || d in b)
  }

  ghost predicate Batch(g: Graph, placed: set<string>, b: seq<string>) {
    ReadyBatch(g, placed, b) || CycleBatch(g, placed, b)
  }

  /** A batch node is linked to nothing outside its batch; in a ready batch, only to itself. */
  lemma BatchLinks(g: Graph, placed: set<string>, b: seq<string>, x: string, y: string)
    requires Closed(g, placed) && Batch(g, placed, b) && x in b && Linked(g, x, y)
    ensures y in b && (ReadyBatch(g, placed, b) ==> x == y)
  {
    ReachNodes(g, x, y);
    assert x in Elements(b);
    if ReadyBatch(g, placed, b) {
      if x != y {
        var p, q := ReachExit(g, {x}, x, y);
        assert q in placed;
        ReachClosed(g, placed, q, y);
        ReachClosed(g, placed, y, x);
      }
    } else {
      assert y in Elements(b);
    }
  }

  lemma PlacedLinks(g: Graph, placed: set<string>, x: string, y: string)
    requires Closed(g, placed) && Linked(g, x, y)
    ensures x in placed <==> y in placed
  {
    if x in placed { ReachClosed(g, placed, x, y); }
    if y in placed { ReachClosed(g, placed, y, x); }
  }

  lemma AppendDependencyFirst(g: Graph, ns: seq<string>, b: seq<string>)
    requires DependencyFirst(g, ns) && Batch(g, Elements(ns), b)
    ensures DependencyFirst(g, ns + b)
  {
    var all := ns + b;
    forall i, d | 0 <= i < |all| && all[i] in g && d in g[all[i]]
      ensures d in all[..i] || Linked(g, all[i], d)
    {
      if i < |ns| {
        assert all[..i] == ns[..i];
        assert ns[i] == all[i];
      } else {
        assert all[..i] == ns + b[..i - |ns|];
        assert all[i] in b;
        assert all[i] in Elements(b);
        assert d in Elements(ns) <==> d in ns;
        if d !in ns {
          assert CycleBatch(g, Elements(ns), b);
          assert d in Elements(b);
          assert Reach(g, all[i], d) && Reach(g, d, all[i]);
        }
      }
    }
  }

  lemma AppendContiguous(g: Graph, ns: seq<string>, b: seq<string>)
    requires Closed(g, Elements(ns)) && Contiguous(g, ns) && Batch(g, Elements(ns), b)
    ensures Contiguous(g, ns + b)
  {
    var all, n := ns + b, |ns|;
    forall i, j, k | 0 <= i < j < k < |all| && Linked(g, all[i], all[k]) ensures Linked(g, all[i], all[j]) {
      PlacedLinks(g, Elements(ns), all[i], all[k]);
      if k < n {
        assert Linked(g, ns[i], ns[k]) && ns[j] == all[j];
      } else {
        assert all[k] in b && all[k] in Elements(b);
        assert all[i] !in Elements(ns);
        assert i >= n;
        assert all[i] in b && all[j] in b;
        BatchLinks(g, Elements(ns), b, all[i], all[k]);
        assert all[i] == b[i - n] && all[k] == b[k - n];
        assert !ReadyBatch(g, Elements(ns), b);
        assert all[i] in Elements(b) && all[j] in Elements(b);
        assert Reach(g, all[i], all[j]) && Reach(g, all[j], all[i]);
      }
    }
  }

  lemma AppendBatch(g: Graph, ns: seq<string>, b: seq<string>)
    requires PlacedWell(g, ns) && Batch(g, Elements(ns), b)
    ensures PlacedWell(g, ns + b) && Elements(ns + b) == Elements(ns) + Elements(b)
  {
    var all := ns + b;
    assert Elements(all) == Elements(ns) + Elements(b);
    DistinctConcat(ns, b);
    assert Closed(g, Elements(all)) by {
      forall x, d | x in Elements(all) && Edge(g, x, d) ensures d in Elements(all) {
        assert x in Elements(ns) || x in b;
      }
    }
    AppendDependencyFirst(g, ns, b);
    AppendContiguous(g, ns, b);
  }

  /** h is g without the placed nodes. */
  ghost predicate Rest(g: Graph, placed: set<string>, h: Graph) {
    h.Keys == g.Keys - placed && forall v :: v in h ==> h[v] == g[v]
  }

  lemma {:induction false} RestReachIn(g: Graph, placed: set<string>, h: Graph, a: string, b: string, n: nat)
    requires Rest(g, placed, h) && ReachIn(h, a, b, n)
    ensures ReachIn(g, a, b, n)
    decreases n
  {
    if n > 0 {
      var c :| Edge(h, a, c) && ReachIn(h, c, b, n - 1);
      RestReachIn(g, placed, h, c, b, n - 1);
      assert Edge(g, a, c);
    }
  }

  lemma RestReach(g: Graph, placed: set<string>, h: Graph, a: string, b: string)
    requires Rest(g, placed, h) && Reach(h, a, b)
    ensures Reach(g, a, b)
  {
    var n :| ReachIn(h, a, b, n);
    RestReachIn(g, placed, h, a, b, n);
  }

  /** A sink component of the rest is a component of the whole graph. */
  lemma LiftComponent(g: Graph, placed: set<string>, h: Graph, c: set<string>)
    requires Rest(g, placed, h) && Closed(g, placed)
    requires IsComponent(h, c) && Closed(h, c)
    ensures IsComponent(g, c)
  {
    forall a, b | a in c && b in c ensures Reach(g, a, b) {
      assert Reach(h, a, b);
      RestReach(g, placed, h, a, b);
    }
    var reach := c + placed;
    forall a, b | a in reach && Edge(g, a, b) ensures b in reach {
      if a in c && b !in placed { assert Edge(h, a, b); }
    }
    forall a, b | a in c && b in g && Linked(g, a, b) ensures b in c {
      ReachClosed(g, reach, a, b);
      PlacedLinks(g, placed, a, b);
    }
  }
}
