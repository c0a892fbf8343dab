/** `gen-config-catalog`: collecting the key paths of a schema and of all schemas it composes. */
module SchemaFold {
  import opened Digraph
  import opened Packages

  /** The catalog by package name: the packages a schema composes, and its own key paths. */
  datatype Catalog = Catalog(composes: Graph, keys: map<string, seq<string>>) {
    ghost predicate Valid() { composes.Keys == keys.Keys }
  }

  /** The key paths of the packages of a list, in order. */
  function KeysOf(c: Catalog, order: seq<string>): seq<string> {
    if order == [] then []
    else KeysOf(c, order[..|order| - 1]) + if order[|order| - 1] in c.keys then c.keys[order[|order| - 1]] else []
  }

  lemma {:induction false} KeysConcat(c: Catalog, a: seq<string>, b: seq<string>)
    ensures KeysOf(c, a + b) == KeysOf(c, a) + KeysOf(c, b)
    decreases |b|
  {
    if b == [] {
      assert a + b == a;
    } else {
      var n := |b| - 1;
      assert (a + b)[..|a + b| - 1] == a + b[..n];
      KeysConcat(c, a, b[..n]);
    }
  }

  /** Everything composed by p that is in the catalog is in seen. */
  ghost predicate Followed(c: Catalog, p: string, seen: set<string>) {
    forall q :: Edge(c.composes, p, q) ==> q in seen
  }

  /** One call visits `added`: all of it is reachable from pkg, and what its members compose is seen. */
  ghost predicate Visits(c: Catalog, pkg: string, added: set<string>, seen: set<string>) {
    forall p :: p in added ==> Reach(c.composes, pkg, p) && Followed(c, p, seen)
  }

  /** The names no package of the catalog has, among those composed by members of `added`. */
  ghost predicate Unknown(c: Catalog, added: set<string>, q: string) {
    q !in c.composes && exists p :: p in added && p in c.composes && q in c.composes[p]
  }

  lemma ElementsConcat(a: seq<string>, b: seq<string>)
    ensures Elements(a + b) == Elements(a) + Elements(b)
  {
  }

  lemma VisitsMore(c: Catalog, pkg: string, name: string, added: set<string>, before: set<string>, after: set<string>)
    requires Edge(c.composes, pkg, name) && before <= after && Visits(c, name, after - before, after)
    requires forall p :: p in added ==> Reach(c.composes, pkg, p) && (p == pkg || Followed(c, p, before))
    ensures forall p :: p in added + (after - before) ==>
            Reach(c.composes, pkg, p) && (p == pkg || Followed(c, p, after))
  {
    ReachStep(c.composes, pkg, name);
    forall p | p in after - before ensures Reach(c.composes, pkg, p) { ReachTrans(c.composes, pkg, name, p); }
  }

  /** `order` lists the packages visited, `missing` the names reported. */
  method Fold(c: Catalog, pkg: string, seen: set<string>)
    returns (keys: seq<string>, after: set<string>, missing: seq<string>, ghost order: seq<string>)
    requires c.Valid() && pkg in c.composes && seen <= c.composes.Keys
    ensures seen + {pkg} <= after <= c.composes.Keys
    ensures Distinct(order) && Elements(order) == after - seen && keys == KeysOf(c, order)
    ensures Visits(c, pkg, after - seen, after)
    ensures forall q :: q in missing <==> Unknown(c, after - seen, q)
    decreases c.composes.Keys - seen
  {
    if pkg in seen {
      return [], seen, [], [];
    }
    keys := c.keys[pkg];
    after := seen + {pkg};
    missing := [];
    order := [pkg];
    ReachSelf(c.composes, pkg);
    var composed := c.composes[pkg];
    for i := 0 to |composed|
      invariant seen + {pkg} <= after <= c.composes.Keys
      invariant Distinct(order) && Elements(order) == after - seen && keys == KeysOf(c, order)
      invariant forall p :: p in after - seen ==> Reach(c.composes, pkg, p) && (p == pkg || Followed(c, p, after))
      invariant forall j :: 0 <= j < i && composed[j] in c.composes ==> composed[j] in after
      invariant forall q :: q in missing <==>
                q !in c.composes && (q in composed[..i] || Unknown(c, after - seen - {pkg}, q))
    {
      var name := composed[i];
      if name !in c.composes {
        missing := missing + [name];
      } else {
        ghost var before, oldOrder := after, order;
        var more, reported;
        ghost var added;
        more, after, reported, added := Fold(c, name, after);
        keys := keys + more;
        missing := missing + reported;
        order := order + added;
        KeysConcat(c, oldOrder, added);
        DistinctConcat(oldOrder, added);
        ElementsConcat(oldOrder, added);
        VisitsMore(c, pkg, name, before - seen, before, after);
        assert after - seen == (before - seen) + (after - before);
        hide Elements, Distinct, Followed, Visits, Reach;
      }
    }
  }

  /** From nothing seen, the fold visits exactly the packages that the schema composes, directly or
      not, each of them once even when schemas compose each other; and it reports exactly the names
      composed on the way that no package has. */
  method AllKeys(c: Catalog, pkg: string) returns (keys: seq<string>, missing: seq<string>, ghost order: seq<string>)
    requires c.Valid() && pkg in c.composes
    ensures Distinct(order) && Elements(order) == ReachSet(c.composes, pkg) && keys == KeysOf(c, order)
    ensures forall q :: q in missing <==> Unknown(c, ReachSet(c.composes, pkg), q)
    ensures forall k :: k in keys <==> exists p :: p in c.keys && Reach(c.composes, pkg, p) && k in c.keys[p]
  {
    var after;
    keys, after, missing, order := Fold(c, pkg, {});
    assert after - {} == after;
    assert Closed(c.composes, after) by {
      forall a, b | a in after && Edge(c.composes, a, b) ensures b in after { assert Followed(c, a, after); }
    }
    forall p | p in ReachSet(c.composes, pkg) ensures p in after { ReachClosed(c.composes, after, pkg, p); }
    assert after == ReachSet(c.composes, pkg);
    forall k ensures k in keys <==> exists p :: p in c.keys && Reach(c.composes, pkg, p) && k in c.keys[p] {
      KeysFrom(c, order, k);
      assert forall p :: p in order <==> p in Elements(order);
    }
  }

  lemma {:induction false} KeysFrom(c: Catalog, order: seq<string>, k: string)
    ensures k in KeysOf(c, order) <==> exists p :: p in order && p in c.keys && k in c.keys[p]
    decreases |order|
  {
    if order != [] {
      var n := |order| - 1;
      KeysFrom(c, order[..n], k);
      assert order == order[..n] + [order[n]];
    }
  }
}
