/** Array.prototype.sort with a comparator: a stable sort, and what makes its result unique. */
module Sorting {

  /** A comparator in the sense of Array.prototype.sort; negative means "before". */
  type Comparator<!T> = (T, T) -> int

  ghost predicate Signs<T>(cmp: Comparator<T>, a: T, b: T) {
    (cmp(a, b) <= 0 || cmp(b, a) <= 0) && (cmp(a, b) < 0 <==> cmp(b, a) > 0)
  }

  ghost predicate Chains<T>(cmp: Comparator<T>, a: T, b: T, c: T) {
    cmp(a, b) <= 0 && cmp(b, c) <= 0 ==> cmp(a, c) <= 0
  }

  /** The comparator is a total preorder. */
  ghost predicate Total<T(!new)>(cmp: Comparator<T>) {
    (forall a, b :: Signs(cmp, a, b)) && (forall a, b, c :: Chains(cmp, a, b, c))
  }

  ghost predicate Sorted<T>(s: seq<T>, cmp: Comparator<T>) {
    forall i, j :: 0 <= i < j < |s| ==> cmp(s[i], s[j]) <= 0
  }

  function Insert<T>(s: seq<T>, x: T, cmp: Comparator<T>): (r: seq<T>)
    ensures multiset(r) == multiset(s) + multiset{x}
  {
    if s == [] then [x]
    else if cmp(x, s[|s| - 1]) < 0 then
      assert s == s[..|s| - 1] + [s[|s| - 1]];
      Insert(s[..|s| - 1], x, cmp) + [s[|s| - 1]]
    else s + [x]
  }

  function Sort<T>(s: seq<T>, cmp: Comparator<T>): (r: seq<T>)
    ensures multiset(r) == multiset(s)
  {
    if s == [] then []
    else
      assert s == s[..|s| - 1] + [s[|s| - 1]];
      Insert(Sort(s[..|s| - 1], cmp), s[|s| - 1], cmp)
  }

  lemma SameElements<T>(s: seq<T>, t: seq<T>)
    requires multiset(s) == multiset(t)
    ensures |s| == |t|
    ensures forall x :: x in s <==> x in t
  {
    assert |multiset(s)| == |s| && |multiset(t)| == |t|;
    forall x ensures x in s <==> x in t {
      assert x in multiset(s) <==> x in multiset(t);
    }
  }

  /** Two permutations still are permutations after taking the last element of s out of both. */
  lemma TakeLast<T>(s: seq<T>, t: seq<T>) returns (i: nat)
    requires multiset(s) == multiset(t) && s != []
    ensures i < |t| && t[i] == s[|s| - 1]
    ensures multiset(s[..|s| - 1]) == multiset(t[..i] + t[i + 1..])
  {
    var n := |s| - 1;
    SameElements(s, t);
    assert s[n] in t;
    i :| 0 <= i < |t| && t[i] == s[n];
    TakeOne(s, n);
    TakeOne(t, i);
    assert s[..n] + s[n + 1..] == s[..n];
    TakeSame(multiset(s[..n]), multiset(t[..i] + t[i + 1..]), s[n]);
  }

  lemma TakeOne<T>(t: seq<T>, i: nat)
    requires i < |t|
    ensures multiset(t) == multiset(t[..i] + t[i + 1..]) + multiset{t[i]}
  {
    assert t == (t[..i] + [t[i]]) + t[i + 1..];
  }

  lemma TakeSame<T>(a: multiset<T>, b: multiset<T>, x: T)
    requires a + multiset{x} == b + multiset{x}
    ensures a == b
  {
    assert a == (a + multiset{x}) - multiset{x} && b == (b + multiset{x}) - multiset{x};
  }

  lemma {:induction false} InsertSorted<T(!new)>(s: seq<T>, x: T, cmp: Comparator<T>)
    requires Total(cmp) && Sorted(s, cmp)
    ensures Sorted(Insert(s, x, cmp), cmp)
  {
    if s != [] && cmp(x, s[|s| - 1]) < 0 {
      var init, top := s[..|s| - 1], s[|s| - 1];
      InsertSorted(init, x, cmp);
      var r := Insert(init, x, cmp);
      assert s == init + [top];
      assert Signs(cmp, x, top);
      forall y | y in r ensures cmp(y, top) <= 0 {
        assert y in multiset(r);
        if y != x {
          assert y in init;
          var i :| 0 <= i < |init| && init[i] == y;
          assert cmp(s[i], s[|s| - 1]) <= 0;
        }
      }
      RaiseTop(r, top, cmp);
    } else if s != [] {
      forall y | y in s ensures cmp(y, x) <= 0 {
        var i :| 0 <= i < |s| && s[i] == y;
        assert Signs(cmp, y, y) && Signs(cmp, x, s[|s| - 1]);
        assert cmp(y, s[|s| - 1]) <= 0;
        assert Chains(cmp, y, s[|s| - 1], x);
      }
      RaiseTop(s, x, cmp);
    }
  }

  lemma RaiseTop<T>(s: seq<T>, top: T, cmp: Comparator<T>)
    requires Sorted(s, cmp) && forall y :: y in s ==> cmp(y, top) <= 0
    ensures Sorted(s + [top], cmp)
  {
  }

  lemma {:induction false} SortSorts<T(!new)>(s: seq<T>, cmp: Comparator<T>)
    requires Total(cmp)
    ensures Sorted(Sort(s, cmp), cmp)
  {
    if s != [] {
      SortSorts(s[..|s| - 1], cmp);
      InsertSorted(Sort(s[..|s| - 1], cmp), s[|s| - 1], cmp);
    }
  }

  /** The comparator tells the elements of s apart. */
  ghost predicate Separates<T>(cmp: Comparator<T>, s: seq<T>) {
    forall a, b :: a in s && b in s && cmp(a, b) == 0 ==> a == b
  }

  lemma SameTails<T>(s: seq<T>, t: seq<T>)
    requires multiset(s) == multiset(t) && s != [] && t != [] && s[0] == t[0]
    ensures multiset(s[1..]) == multiset(t[1..])
  {
    assert s == [s[0]] + s[1..] && t == [t[0]] + t[1..];
    assert multiset(s[1..]) == multiset(s) - multiset{s[0]};
    assert multiset(t[1..]) == multiset(t) - multiset{t[0]};
  }

  lemma LeastFirst<T(!new)>(s: seq<T>, x: T, cmp: Comparator<T>)
    requires Total(cmp) && Sorted(s, cmp) && x in s
    ensures cmp(s[0], x) <= 0
  {
    var i :| 0 <= i < |s| && s[i] == x;
    assert Signs(cmp, x, x);
  }

  /** Where the comparator separates, sorting a permutation gives the same list. */
  lemma {:induction false} SortedUnique<T(!new)>(s: seq<T>, t: seq<T>, cmp: Comparator<T>)
    requires Total(cmp) && Separates(cmp, s)
    requires multiset(s) == multiset(t) && Sorted(s, cmp) && Sorted(t, cmp)
    ensures s == t
    decreases |s|
  {
    SameElements(s, t);
    if s != [] {
      assert s[0] in t && t[0] in s;
      LeastFirst(s, t[0], cmp);
      LeastFirst(t, s[0], cmp);
      assert Signs(cmp, s[0], t[0]);
      assert s[0] == t[0];
      SameTails(s, t);
      SortedUnique(s[1..], t[1..], cmp);
      assert s == [s[0]] + s[1..] && t == [t[0]] + t[1..];
    }
  }

  lemma SortUnique<T(!new)>(s: seq<T>, t: seq<T>, cmp: Comparator<T>)
    requires Total(cmp) && Separates(cmp, s) && multiset(s) == multiset(t)
    ensures Sort(s, cmp) == Sort(t, cmp)
  {
    SortSorts(s, cmp);
    SortSorts(t, cmp);
    SameElements(s, Sort(s, cmp));
    SortedUnique(Sort(s, cmp), Sort(t, cmp), cmp);
  }

  /** The first element after sorting is least. */
  lemma SortHead<T(!new)>(s: seq<T>, cmp: Comparator<T>)
    requires Total(cmp) && s != []
    ensures var r := Sort(s, cmp); r != [] && r[0] in s && forall x :: x in s ==> cmp(r[0], x) <= 0
  {
    var r := Sort(s, cmp);
    SortSorts(s, cmp);
    SameElements(s, r);
    forall x | x in s ensures cmp(r[0], x) <= 0 {
      LeastFirst(r, x, cmp);
    }
  }
}
