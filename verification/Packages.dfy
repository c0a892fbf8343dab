/** Workspace packages, the insertion-ordered map that holds them, and their order. */
module Packages {
  import opened Digraph
  import opened Sorting

  datatype Package = Package(short: string, name: string, group: string, rel: string, deps: seq<string>)

  function Elements<T>(s: seq<T>): set<T> {
    set x | x in s
  }

  ghost predicate Distinct<T>(s: seq<T>) {
    forall i, j :: 0 <= i < j < |s| ==> s[i] != s[j]
  }

  lemma DistinctConcat<T>(s: seq<T>, t: seq<T>)
    requires Distinct(s) && Distinct(t) && Elements(s) !! Elements(t)
    ensures Distinct(s + t)
  {
    var r := s + t;
    forall i, j | 0 <= i < j < |r| ensures r[i] != r[j] {
      if i < |s| <= j {
        assert r[i] in Elements(s) && r[j] in Elements(t);
      }
    }
  }

  lemma DistinctByCount<T>(s: seq<T>)
    ensures Distinct(s) <==> forall x :: multiset(s)[x] <= 1
  {
    if Distinct(s) {
      forall x ensures multiset(s)[x] <= 1 { DistinctCount(s, x); }
    }
    if !Distinct(s) {
      var i, j :| 0 <= i < j < |s| && s[i] == s[j];
      assert s == s[..j] + [s[j]] + s[j + 1..];
      assert s[i] in multiset(s[..j]) by { assert s[..j][i] == s[i]; }
      assert multiset(s)[s[i]] >= 2;
    }
  }

  lemma {:induction false} DistinctCount<T>(s: seq<T>, x: T)
    requires Distinct(s)
    ensures multiset(s)[x] <= 1
  {
    if s != [] {
      assert s == [s[0]] + s[1..];
      DistinctCount(s[1..], x);
      assert x == s[0] ==> x !in s[1..];
    }
  }

  /** Distinct lists with the same elements are permutations of each other. */
  lemma DistinctPermutation<T>(s: seq<T>, t: seq<T>)
    requires Distinct(s) && Distinct(t) && forall x :: x in s <==> x in t
    ensures multiset(s) == multiset(t)
  {
    DistinctByCount(s);
    DistinctByCount(t);
    forall x ensures multiset(s)[x] == multiset(t)[x] {
      assert x in s <==> x in multiset(s);
      assert x in t <==> x in multiset(t);
    }
  }

  /** A JavaScript Map from short names to packages: `keys` is its iteration order. */
  datatype PackageMap = PackageMap(keys: seq<string>, entries: map<string, Package>) {

    ghost predicate Valid() {
      && Distinct(keys)
      && Elements(keys) == entries.Keys
      && (forall k :: k in entries ==> entries[k].short == k)
    }

    /** Map.set: a known key keeps its place and gets the new value. */
    function Set(p: Package): (m: PackageMap)
      requires Valid()
      ensures m.Valid()
    {
      if p.short in entries then PackageMap(keys, entries[p.short := p])
      else
        assert Elements(keys + [p.short]) == Elements(keys) + {p.short};
        PackageMap(keys + [p.short], entries[p.short := p])
    }

    /** Map.delete for every name of a list. */
    function DeleteAll(names: set<string>): (m: PackageMap)
      requires Valid()
      ensures m.Valid() && m.entries == entries - names
    {
      KeepIsFilter(keys, names);
      PackageMap(Keep(keys, names), entries - names)
    }

    /** The packages in iteration order. */
    function Values(): (ps: seq<Package>)
      requires Valid()
      ensures |ps| == |keys| && forall i :: 0 <= i < |ps| ==> ps[i] == entries[keys[i]]
    {
      seq(|keys|, i requires 0 <= i < |keys| => assert keys[i] in Elements(keys); entries[keys[i]])
    }

    /** The packages a list of known names stands for. */
    function Named(names: seq<string>): (ps: seq<Package>)
      requires forall n :: n in names ==> n in entries
      ensures |ps| == |names| && forall i :: 0 <= i < |ps| ==> ps[i] == entries[names[i]]
    {
      seq(|names|, i requires 0 <= i < |names| => entries[names[i]])
    }

    function Graph(): Graph {
      Dependencies(entries)
    }
  }

  function Dependencies(m: map<string, Package>): Graph {
    map k | k in m :: m[k].deps
  }

  lemma DependenciesMeaning(m: map<string, Package>, k: string)
    ensures k in Dependencies(m) <==> k in m
    ensures k in m ==> Dependencies(m)[k] == m[k].deps
  {
  }

  function Keep(keys: seq<string>, names: set<string>): seq<string> {
    if keys == [] then []
    else (if keys[0] in names then [] else [keys[0]]) + Keep(keys[1..], names)
  }

  lemma {:induction false} KeepIsFilter(keys: seq<string>, names: set<string>)
    ensures Elements(Keep(keys, names)) == Elements(keys) - names
    ensures Distinct(keys) ==> Distinct(Keep(keys, names))
  {
    if keys != [] {
      var rest := Keep(keys[1..], names);
      KeepIsFilter(keys[1..], names);
      assert keys == [keys[0]] + keys[1..];
      assert Elements(keys) == {keys[0]} + Elements(keys[1..]);
      if keys[0] in names {
        assert Keep(keys, names) == rest;
      } else {
        assert Keep(keys, names) == [keys[0]] + rest;
        assert Elements([keys[0]] + rest) == {keys[0]} + Elements(rest);
        assert Distinct(keys) ==> keys[0] !in Elements(rest);
        if Distinct(keys) { DistinctConcat([keys[0]], rest); }
      }
    }
  }

  /** x stands before y in the list. */
  ghost predicate Before(s: seq<string>, x: string, y: string) {
    exists i, j :: 0 <= i < j < |s| && s[i] == x && s[j] == y
  }

  lemma BeforeFirst(s: seq<string>, x: string, y: string)
    requires s != []
    ensures Before(s, x, y) <==> (x == s[0] && y in s[1..]) || Before(s[1..], x, y)
  {
    var rest := s[1..];
    if Before(s, x, y) {
      var i, j :| 0 <= i < j < |s| && s[i] == x && s[j] == y;
      assert rest[j - 1] == y;
      if i > 0 { assert rest[i - 1] == x; }
    }
    if x == s[0] && y in rest {
      var j :| 0 <= j < |rest| && rest[j] == y;
      assert s[j + 1] == y;
    }
    if Before(rest, x, y) {
      var i, j :| 0 <= i < j < |rest| && rest[i] == x && rest[j] == y;
      assert s[i + 1] == x && s[j + 1] == y;
    }
  }

  /** What is kept stays in its order. */
  lemma {:induction false} KeepOrder(keys: seq<string>, names: set<string>, x: string, y: string)
    ensures Before(Keep(keys, names), x, y) <==> x !in names && y !in names && Before(keys, x, y)
  {
    if keys != [] {
      var rest := Keep(keys[1..], names);
      KeepOrder(keys[1..], names, x, y);
      KeepIsFilter(keys[1..], names);
      assert y in rest <==> y in Elements(keys[1..]) - names by { assert y in rest <==> y in Elements(rest); }
      BeforeFirst(keys, x, y);
      hide Before;
      if keys[0] in names {
        assert Keep(keys, names) == rest;
      } else {
        assert Keep(keys, names) == [keys[0]] + rest && ([keys[0]] + rest)[1..] == rest;
        BeforeFirst([keys[0]] + rest, x, y);
      }
    }
  }

  // ----- comparePackages -----

  const MAX_SAFE_INTEGER := 9007199254740991

  /** String.prototype.localeCompare, as far as the order depends on it. */
  type Collation = (string, string) -> int

  /** The collation is a total order: it tells different strings apart. */
  ghost predicate IsCollation(collate: Collation) {
    Total(collate) && forall a, b :: collate(a, b) == 0 ==> a == b
  }

  /** Array.prototype.indexOf. */
  function IndexOf(s: seq<string>, x: string): (i: int)
    ensures i == -1 || (0 <= i < |s| && s[i] == x && x !in s[..i])
    ensures i == -1 <==> x !in s
  {
    if s == [] then -1
    else if s[0] == x then 0
    else
      var i := IndexOf(s[1..], x);
      if i == -1 then -1 else i + 1
  }

  function Rank(group: string, groupOrder: seq<string>): int {
    var i := IndexOf(groupOrder, group);
    if i == -1 then MAX_SAFE_INTEGER else i
  }

  function ComparePackages(a: Package, b: Package, groupOrder: seq<string>, collate: Collation): int {
    var byRank := Rank(a.group, groupOrder) - Rank(b.group, groupOrder);
    if byRank != 0 then byRank
    else
      var byGroup := collate(a.group, b.group);
      if byGroup != 0 then byGroup else collate(a.short, b.short)
  }

  function Precedence(groupOrder: seq<string>, collate: Collation): Comparator<Package> {
    (a, b) => ComparePackages(a, b, groupOrder, collate)
  }

  /** comparePackages is a total preorder that only equates packages of one short name. */
  lemma PrecedenceTotal(groupOrder: seq<string>, collate: Collation)
    requires IsCollation(collate)
    ensures Total(Precedence(groupOrder, collate))
    ensures forall a, b :: Precedence(groupOrder, collate)(a, b) == 0 ==> a.short == b.short
  {
    var cmp := Precedence(groupOrder, collate);
    forall a, b ensures Signs(cmp, a, b) {
      assert Signs(collate, a.group, b.group) && Signs(collate, a.short, b.short);
    }
    forall a, b, c ensures Chains(cmp, a, b, c) {
      assert Chains(collate, a.group, b.group, c.group) && Chains(collate, a.short, b.short, c.short);
      assert Signs(collate, a.group, b.group) && Signs(collate, b.group, c.group) && Signs(collate, a.group, c.group);
      assert Signs(collate, a.group, a.group);
    }
  }
}
