/** Tarjan's search for strongly connected components, as `sinkCycles` runs it.
    A node is named by its short name, the key under which `remaining` holds it. */
module Tarjan {
  import opened Basics
  import opened Digraph
  import opened Packages

  /** The search's variables at one moment. */
  datatype Search = Search(next: nat, indices: map<string, nat>, low: map<string, nat>,
                           stack: seq<string>, components: seq<seq<string>>)

  function Popped(components: seq<seq<string>>): set<string> {
    set i, v | 0 <= i < |components| && v in components[i] :: v
  }

  /** Indices are given out in ascending order and ascend along the stack. */
  ghost predicate Shape(g: Graph, s: Search) {
    && s.indices.Keys <= g.Keys
    && s.low.Keys == s.indices.Keys
    && (forall v :: v in s.indices ==> s.indices[v] < s.next)
    && (forall v :: v in s.stack ==> v in s.indices)
    && (forall i, j :: 0 <= i < j < |s.stack| ==> s.indices[s.stack[i]] < s.indices[s.stack[j]])
  }

  /** Every visited node is on the stack or in exactly one emitted component. */
  ghost predicate Emitted(g: Graph, s: Search) {
    && s.indices.Keys == Elements(s.stack) + Popped(s.components)
    && Elements(s.stack) !! Popped(s.components)
    && (forall i :: 0 <= i < |s.components| ==> Distinct(s.components[i]) && IsComponent(g, Elements(s.components[i])))
    && (forall i, j :: 0 <= i < j < |s.components| ==> Elements(s.components[i]) !! Elements(s.components[j]))
  }

  /** A finished node has only visited successors. */
  ghost predicate Finished(g: Graph, s: Search, grey: set<string>) {
    forall a, b {:trigger Edge(g, a, b)} :: a in s.indices && a !in grey && Edge(g, a, b) ==> b in s.indices
  }

  /** Lower stack entries reach higher ones. */
  ghost predicate Ascends(g: Graph, s: Search) {
    forall i, j {:trigger Reach(g, s.stack[i], s.stack[j])} :: 0 <= i <= j < |s.stack| ==>
      Reach(g, s.stack[i], s.stack[j])
  }

  /** Every stack entry leads back to an active call at or below it. */
  ghost predicate Anchored(g: Graph, s: Search, grey: set<string>) {
    forall y {:trigger AnchoredAt(g, s, grey, y)} :: y in s.stack ==> AnchoredAt(g, s, grey, y)
  }

  ghost predicate AnchoredAt(g: Graph, s: Search, grey: set<string>, y: string) {
    y in s.indices && exists z :: z in grey && z in s.indices && s.indices[z] <= s.indices[y] && Reach(g, y, z)
  }

  /** What holds between any two steps of the search; `grey` are the active calls. */
  ghost predicate Inv(g: Graph, s: Search, grey: set<string>) {
    && Shape(g, s)
    && grey <= Elements(s.stack)
    && Emitted(g, s)
    && Finished(g, s, grey)
    && Ascends(g, s)
    && Anchored(g, s, grey)
  }

  /** The search only adds: visited nodes keep their numbers, components stay. */
  ghost predicate Extends(s: Search, t: Search) {
    && s.stack <= t.stack
    && s.components <= t.components
    && s.next <= t.next
    && (forall v :: v in s.indices ==> v in t.indices && t.indices[v] == s.indices[v])
    && (forall v :: v in s.low ==> v in t.low && t.low[v] == s.low[v])
  }

  /** The low link is the index of a stack entry that x reaches. */
  ghost predicate LowIsReached(g: Graph, s: Search, x: string) {
    && x in s.low
    && exists y :: y in s.stack && y in s.indices && s.indices[y] == s.low[x] && Reach(g, x, y)
  }

  /** Edges from the stack above s0 into s0's stack end at or above the low link of x;
      of x itself only the edges into `scanned` are promised. */
  ghost predicate LowIsBound(g: Graph, s0: Search, s: Search, x: string, scanned: set<string>)
    requires |s0.stack| <= |s.stack| && x in s.low
    requires forall v :: v in s0.stack ==> v in s.indices
  {
    forall a, b {:trigger Edge(g, a, b)} ::
      a in s.stack[|s0.stack|..] && b in s0.stack && Edge(g, a, b) && (a == x ==> b in scanned)
      ==> s.low[x] <= s.indices[b]
  }

  /** What one finished call `visit(x)` has achieved between s and t. */
  ghost predicate Visited(g: Graph, s: Search, t: Search, x: string)
    requires Shape(g, s)
  {
    && Extends(s, t)
    && x in t.indices && x in t.low && x in g
    && t.indices[x] == s.next
    && t.low[x] <= t.indices[x]
    && (t.low[x] < t.indices[x] ==> LowIsReached(g, t, x))
    && LowIsBound(g, s, t, x, Elements(g[x]))
  }

  /** Where the variables stand inside the call `visit(x)` entered at s0. */
  ghost predicate Framed(g: Graph, s0: Search, s: Search, x: string) {
    && Shape(g, s0)
    && x in g && x !in s0.indices
    && Extends(s0, s)
    && s0.stack + [x] <= s.stack
    && x in s.indices && x in s.low
    && s.indices[x] == s0.next
    && s.low[x] <= s.indices[x]
  }

  /** The call `visit(x)`, entered at s0, has handled the dependencies `scanned` and is now at s. */
  ghost predicate Progress(g: Graph, s0: Search, s: Search, x: string, scanned: set<string>) {
    && Framed(g, s0, s, x)
    && LowIsReached(g, s, x)
    && LowIsBound(g, s0, s, x, scanned)
    && AllIndexed(g, s, scanned)
  }

  ghost predicate Exploring(g: Graph, s0: Search, s: Search, x: string, scanned: set<string>, grey: set<string>) {
    Progress(g, s0, s, x, scanned) && Inv(g, s, grey + {x})
  }

  ghost predicate AllIndexed(g: Graph, s: Search, scanned: set<string>) {
    forall d :: d in scanned && d in g ==> d in s.indices
  }

  lemma ExploringInv(g: Graph, s0: Search, s: Search, x: string, scanned: set<string>, grey: set<string>)
    requires Exploring(g, s0, s, x, scanned, grey)
    ensures Inv(g, s, grey + {x})
  {
  }

  function Push(s: Search, x: string): Search {
    Search(s.next + 1, s.indices[x := s.next], s.low[x := s.next], s.stack + [x], s.components)
  }

  function SetLow(s: Search, x: string, n: nat): Search {
    s.(low := s.low[x := n])
  }

  function Emit(s: Search, n: nat, c: seq<string>): Search
    requires n <= |s.stack|
  {
    s.(stack := s.stack[..n], components := s.components + [c])
  }

  // ----- entering a call -----

  lemma EnterCall(g: Graph, s0: Search, x: string, grey: set<string>)
    requires x in g && x !in s0.indices && Inv(g, s0, grey)
    requires forall z :: z in grey ==> Reach(g, z, x)
    ensures Exploring(g, s0, Push(s0, x), x, {}, grey)
  {
    var s := Push(s0, x);
    EnterFrame(g, s0, x);
    EnterInv(g, s0, x, grey);
    assert LowIsReached(g, s, x) by {
      ReachSelf(g, x);
      assert s.stack[|s0.stack|] == x;
    }
    EnterBound(g, s0, x);
  }

  lemma EnterFrame(g: Graph, s0: Search, x: string)
    requires x in g && x !in s0.indices && Shape(g, s0)
    ensures Framed(g, s0, Push(s0, x), x)
  {
  }

  lemma EnterBound(g: Graph, s0: Search, x: string)
    requires x in g && x !in s0.indices && Shape(g, s0)
    ensures LowIsBound(g, s0, Push(s0, x), x, {})
  {
    assert Push(s0, x).stack[|s0.stack|..] == [x];
  }

  lemma EnterInv(g: Graph, s0: Search, x: string, grey: set<string>)
    requires x in g && x !in s0.indices && Inv(g, s0, grey)
    requires forall z :: z in grey ==> Reach(g, z, x)
    ensures Inv(g, Push(s0, x), grey + {x})
  {
    var s := Push(s0, x);
    assert Elements(s.stack) == Elements(s0.stack) + {x};
    EnterAscends(g, s0, x, grey);
    EnterAnchored(g, s0, x, grey);
  }

  lemma EnterAscends(g: Graph, s0: Search, x: string, grey: set<string>)
    requires x in g && Ascends(g, s0) && Anchored(g, s0, grey)
    requires forall z :: z in grey ==> Reach(g, z, x)
    ensures Ascends(g, Push(s0, x))
  {
    var s := Push(s0, x);
    forall i, j | 0 <= i <= j < |s.stack| ensures Reach(g, s.stack[i], s.stack[j]) {
      if i == |s0.stack| {
        ReachSelf(g, x);
      } else if j == |s0.stack| {
        var y := s0.stack[i];
        assert AnchoredAt(g, s0, grey, y);
        var z :| z in grey && Reach(g, y, z);
        ReachTrans(g, y, z, x);
      } else {
        assert Reach(g, s0.stack[i], s0.stack[j]);
      }
    }
  }

  lemma EnterAnchored(g: Graph, s0: Search, x: string, grey: set<string>)
    requires x in g && x !in s0.indices && Anchored(g, s0, grey)
    ensures Anchored(g, Push(s0, x), grey + {x})
  {
    var s := Push(s0, x);
    forall y | y in s.stack ensures AnchoredAt(g, s, grey + {x}, y) {
      if y in s0.stack {
        assert AnchoredAt(g, s0, grey, y);
        var z :| z in grey && z in s0.indices && s0.indices[z] <= s0.indices[y] && Reach(g, y, z);
        assert z in grey + {x} && z in s.indices && s.indices[z] <= s.indices[y];
      } else {
        ReachSelf(g, x);
        assert x in grey + {x};
      }
    }
  }

  // ----- handling one dependency -----

  lemma ActiveReach(g: Graph, x: string, d: string, grey: set<string>)
    requires Edge(g, x, d)
    requires forall z :: z in grey ==> Reach(g, z, x)
    ensures forall z :: z in grey + {x} ==> Reach(g, z, d)
  {
    ReachStep(g, x, d);
    forall z | z in grey ensures Reach(g, z, d) {
      ReachTrans(g, z, x, d);
    }
  }

  lemma InvIgnoresLow(g: Graph, s: Search, t: Search, grey: set<string>)
    requires Inv(g, s, grey) && t == s.(low := t.low) && t.low.Keys == s.low.Keys
    ensures Inv(g, t, grey)
  {
    assert Emitted(g, t);
    forall y | y in t.stack ensures AnchoredAt(g, t, grey, y) {
      assert AnchoredAt(g, s, grey, y);
    }
    forall i, j | 0 <= i <= j < |t.stack| ensures Reach(g, t.stack[i], t.stack[j]) {
      assert Reach(g, s.stack[i], s.stack[j]);
    }
  }

  lemma AfterChild(g: Graph, s0: Search, s: Search, t: Search, x: string, scanned: set<string>, d: string)
    requires Progress(g, s0, s, x, scanned) && Shape(g, s)
    requires Edge(g, x, d) && d !in s.indices && Visited(g, s, t, d)
    ensures x in t.low
    ensures Progress(g, s0, SetLow(t, x, Min(t.low[x], t.low[d])), x, scanned + {d})
  {
    var n := Min(t.low[x], t.low[d]);
    FrameAfterChild(g, s0, s, t, x, n);
    LowAfterChild(g, s, t, x, d);
    BoundAfterChild(g, s0, s, t, x, scanned, d);
    ScannedAfterChild(g, s, t, SetLow(t, x, n), scanned, d);
  }

  lemma ScannedAfterChild(g: Graph, s: Search, t: Search, u: Search, scanned: set<string>, d: string)
    requires Extends(s, t) && d in t.indices && u.indices == t.indices
    requires AllIndexed(g, s, scanned)
    ensures AllIndexed(g, u, scanned + {d})
  {
  }

  lemma FrameAfterChild(g: Graph, s0: Search, s: Search, t: Search, x: string, n: nat)
    requires Framed(g, s0, s, x) && Extends(s, t) && n <= s.low[x]
    ensures Framed(g, s0, SetLow(t, x, n), x)
  {
    var u := SetLow(t, x, n);
    forall v | v in s0.indices ensures v in u.indices && u.indices[v] == s0.indices[v] {
      assert v in s.indices;
    }
    forall v | v in s0.low ensures v in u.low && u.low[v] == s0.low[v] {
      assert v in s.low && v in s0.indices;
    }
  }

  lemma LowAfterChild(g: Graph, s: Search, t: Search, x: string, d: string)
    requires Shape(g, s) && Visited(g, s, t, d)
    requires Edge(g, x, d) && x in s.low && x in s.indices && s.low[x] <= s.indices[x] && LowIsReached(g, s, x)
    ensures LowIsReached(g, SetLow(t, x, Min(t.low[x], t.low[d])), x)
  {
    var u := SetLow(t, x, Min(t.low[x], t.low[d]));
    if t.low[d] < t.low[x] {
      var y :| y in t.stack && y in t.indices && t.indices[y] == t.low[d] && Reach(g, d, y);
      ReachStep(g, x, d);
      ReachTrans(g, x, d, y);
      assert y in u.stack && y in u.indices && u.indices[y] == u.low[x];
    } else {
      var y :| y in s.stack && y in s.indices && s.indices[y] == s.low[x] && Reach(g, x, y);
      assert y in u.stack && y in u.indices && u.indices[y] == u.low[x];
    }
  }

  lemma BoundAfterChild(g: Graph, s0: Search, s: Search, t: Search, x: string, scanned: set<string>, d: string)
    requires Framed(g, s0, s, x) && Shape(g, s) && LowIsBound(g, s0, s, x, scanned)
    requires d !in s.indices && Visited(g, s, t, d)
    ensures var u := SetLow(t, x, Min(t.low[x], t.low[d]));
            |s0.stack| <= |u.stack| && LowIsBound(g, s0, u, x, scanned + {d})
  {
    var u := SetLow(t, x, Min(t.low[x], t.low[d]));
    var n := |s0.stack|;
    assert u.stack[n..] == s.stack[n..] + t.stack[|s.stack|..];
    forall a, b | a in u.stack[n..] && b in s0.stack && Edge(g, a, b) && (a == x ==> b in scanned + {d})
      ensures u.low[x] <= u.indices[b]
    {
      assert b in s0.indices && b in s.stack && b in s.indices && b != d;
      if a in s.stack[n..] {
        assert s.low[x] <= s.indices[b];
      } else {
        assert t.low[d] <= t.indices[b];
      }
    }
  }

  lemma AfterStacked(g: Graph, s0: Search, s: Search, x: string, scanned: set<string>, d: string, grey: set<string>)
    requires Exploring(g, s0, s, x, scanned, grey)
    requires Edge(g, x, d) && d in s.stack && d in s.indices
    ensures Exploring(g, s0, SetLow(s, x, Min(s.low[x], s.indices[d])), x, scanned + {d}, grey)
  {
    var u := SetLow(s, x, Min(s.low[x], s.indices[d]));
    FrameAfterChild(g, s0, s, s, x, Min(s.low[x], s.indices[d]));
    InvIgnoresLow(g, s, u, grey + {x});
    ReachStep(g, x, d);
    if s.indices[d] < s.low[x] {
      assert d in u.stack && d in u.indices && u.indices[d] == u.low[x];
    } else {
      var y :| y in s.stack && y in s.indices && s.indices[y] == s.low[x] && Reach(g, x, y);
      assert y in u.stack && y in u.indices && u.indices[y] == u.low[x];
    }
  }

  lemma AfterSkipped(g: Graph, s0: Search, s: Search, x: string, scanned: set<string>, d: string, grey: set<string>)
    requires Exploring(g, s0, s, x, scanned, grey)
    requires d in g ==> d in s.indices && d !in s.stack
    ensures Exploring(g, s0, s, x, scanned + {d}, grey)
  {
    forall b | b in s0.stack ensures b != d {
      assert b in s.stack && b in s0.indices;
    }
  }

  // ----- leaving a call -----

  lemma CallFinished(g: Graph, s0: Search, s: Search, x: string, grey: set<string>)
    requires x in g && Exploring(g, s0, s, x, Elements(g[x]), grey)
    ensures Finished(g, s, grey)
  {
  }

  /** The call ends below its own index: x joins the component of an older stack entry. */
  lemma LeaveStacked(g: Graph, s0: Search, s: Search, x: string, grey: set<string>)
    requires Inv(g, s0, grey) && x in g && Exploring(g, s0, s, x, Elements(g[x]), grey)
    requires s.low[x] != s.indices[x]
    ensures Inv(g, s, grey) && Visited(g, s0, s, x)
  {
    CallFinished(g, s0, s, x, grey);
    StillAnchored(g, s, x, grey);
    GreyIsOld(g, s0, s, x, grey);
  }

  lemma GreyIsOld(g: Graph, s0: Search, s: Search, x: string, grey: set<string>)
    requires grey <= Elements(s0.stack) && Extends(s0, s)
    ensures grey <= Elements(s.stack)
  {
    forall z | z in grey ensures z in Elements(s.stack) {
      assert z in Elements(s0.stack);
      assert z in s0.stack;
    }
  }

  lemma StillAnchored(g: Graph, s: Search, x: string, grey: set<string>)
    requires Anchored(g, s, grey + {x}) && LowIsReached(g, s, x)
    requires x in s.indices && s.low[x] < s.indices[x]
    ensures Anchored(g, s, grey)
  {
    var w :| w in s.stack && w in s.indices && s.indices[w] == s.low[x] && Reach(g, x, w);
    assert AnchoredAt(g, s, grey + {x}, w);
    var z :| z in grey + {x} && z in s.indices && s.indices[z] <= s.indices[w] && Reach(g, w, z);
    assert z in grey;
    ReachTrans(g, x, w, z);
    forall y | y in s.stack ensures AnchoredAt(g, s, grey, y) {
      assert AnchoredAt(g, s, grey + {x}, y);
      var v :| v in grey + {x} && v in s.indices && s.indices[v] <= s.indices[y] && Reach(g, y, v);
      if v == x {
        ReachTrans(g, y, x, z);
        assert z in grey && s.indices[z] <= s.indices[y];
      }
    }
  }

  /** From x upwards the stack is one strongly connected set. */
  lemma SegmentLinked(g: Graph, s0: Search, s: Search, x: string, y: string, grey: set<string>)
    requires s0.stack + [x] <= s.stack && grey <= Elements(s0.stack)
    requires Ascends(g, s) && Anchored(g, s, grey + {x})
    requires y in s.stack[|s0.stack|..]
    ensures Linked(g, x, y)
  {
    var n := |s0.stack|;
    var j :| n <= j < |s.stack| && s.stack[j] == y;
    assert s.stack[n] == x;
    assert Reach(g, s.stack[n], s.stack[j]);
    assert AnchoredAt(g, s, grey + {x}, y);
    var z :| z in grey + {x} && Reach(g, y, z);
    if z != x {
      assert z in Elements(s0.stack);
      var k :| 0 <= k < n && s0.stack[k] == z;
      assert s.stack[k] == z;
      assert Reach(g, s.stack[k], s.stack[n]);
      ReachTrans(g, y, z, x);
    }
  }

  lemma SegmentIsNew(g: Graph, s0: Search, s: Search, p: string)
    requires Shape(g, s) && s0.stack <= s.stack
    requires p in s.stack[|s0.stack|..]
    ensures p !in s0.stack && p in s.stack
  {
    var n := |s0.stack|;
    var j :| n <= j < |s.stack| && s.stack[j] == p;
    forall k | 0 <= k < n ensures s0.stack[k] != p {
      assert s.indices[s.stack[k]] < s.indices[s.stack[j]];
    }
  }

  /** At a root no edge leads from the segment down into the older stack. */
  lemma RootBound(g: Graph, s0: Search, s: Search, x: string, p: string, q: string)
    requires Framed(g, s0, s, x) && LowIsBound(g, s0, s, x, Elements(g[x]))
    requires s.low[x] == s.indices[x]
    requires Edge(g, p, q) && p in s.stack[|s0.stack|..]
    ensures q !in s0.stack
  {
    forall k | 0 <= k < |s0.stack| ensures s0.stack[k] != q {
      assert s0.stack[k] in s0.indices;
      assert s.indices[s0.stack[k]] < s.low[x];
    }
  }

  /** At a root, an edge out of the segment can only end in an emitted component. */
  lemma SegmentExit(g: Graph, s0: Search, s: Search, x: string, p: string, q: string, grey: set<string>)
    requires Framed(g, s0, s, x) && LowIsBound(g, s0, s, x, Elements(g[x])) && Shape(g, s) && Emitted(g, s)
    requires grey <= Elements(s0.stack) && Finished(g, s, grey)
    requires s.low[x] == s.indices[x]
    requires Edge(g, p, q) && p in s.stack[|s0.stack|..] && q !in s.stack[|s0.stack|..]
    ensures q in Popped(s.components)
  {
    SegmentApart(g, s0, s, Elements(s.stack[|s0.stack|..]));
    assert p in Elements(s.stack[|s0.stack|..]);
    assert p !in grey;
    RootBound(g, s0, s, x, p, q);
    assert q !in Elements(s.stack);
  }

  /** A node linked to a root lies in the segment above it. */
  lemma SegmentMaximal(g: Graph, s0: Search, s: Search, x: string, b: string, grey: set<string>)
    requires Inv(g, s0, grey) && x in g && Exploring(g, s0, s, x, Elements(g[x]), grey)
    requires s.low[x] == s.indices[x]
    requires Linked(g, x, b)
    ensures b in s.stack[|s0.stack|..]
  {
    var c := Elements(s.stack[|s0.stack|..]);
    assert s.stack[|s0.stack|] == x;
    assert x in Elements(s.stack);
    if b !in c {
      var p, q := ReachExit(g, c, x, b);
      CallFinished(g, s0, s, x, grey);
      SegmentExit(g, s0, s, x, p, q, grey);
      ReachStep(g, p, q);
      ReachTrans(g, x, p, q);
      ReachTrans(g, q, b, x);
      PoppedIsClosedUnderLinks(g, s, q, x);
    }
  }

  lemma PoppedIsClosedUnderLinks(g: Graph, s: Search, q: string, x: string)
    requires Emitted(g, s) && q in Popped(s.components) && Linked(g, q, x)
    ensures x in Popped(s.components)
  {
    ReachNodes(g, q, x);
    var i :| 0 <= i < |s.components| && q in s.components[i];
    assert IsComponent(g, Elements(s.components[i]));
    assert x in Elements(s.components[i]);
  }

  lemma SegmentIsComponent(g: Graph, s0: Search, s: Search, x: string, grey: set<string>)
    requires Inv(g, s0, grey) && x in g && Exploring(g, s0, s, x, Elements(g[x]), grey)
    requires s.low[x] == s.indices[x]
    ensures IsComponent(g, Elements(s.stack[|s0.stack|..]))
  {
    var c := Elements(s.stack[|s0.stack|..]);
    forall b ensures b in c <==> b in Component(g, x) {
      if b in c { SegmentLinked(g, s0, s, x, b, grey); ReachNodes(g, x, b); }
      if b in Component(g, x) { SegmentMaximal(g, s0, s, x, b, grey); }
    }
    assert c == Component(g, x);
    ComponentIsComponent(g, x);
  }

  lemma PoppedGrows(components: seq<seq<string>>, c: seq<string>)
    ensures Popped(components + [c]) == Popped(components) + Elements(c)
  {
    var after := components + [c];
    forall v | v in Popped(after) ensures v in Popped(components) + Elements(c) {
      var i :| 0 <= i < |after| && v in after[i];
      assert i < |components| ==> v in components[i];
    }
    forall v | v in Popped(components) + Elements(c) ensures v in Popped(after) {
      if v in Elements(c) {
        assert v in after[|components|];
      } else {
        var i :| 0 <= i < |components| && v in components[i];
        assert v in after[i];
      }
    }
  }

  lemma SegmentApart(g: Graph, s0: Search, s: Search, c: set<string>)
    requires Shape(g, s) && s0.stack <= s.stack && c == Elements(s.stack[|s0.stack|..])
    ensures Elements(s0.stack) !! c && Elements(s.stack) == Elements(s0.stack) + c
  {
    assert s.stack == s0.stack + s.stack[|s0.stack|..];
    forall v | v in c ensures v !in s0.stack {
      SegmentIsNew(g, s0, s, v);
    }
  }

  lemma PoppedApart(components: seq<seq<string>>, i: nat, c: set<string>)
    requires i < |components| && Popped(components) !! c
    ensures Elements(components[i]) !! c
  {
    forall v | v in components[i] ensures v !in c {
      assert v in Popped(components);
    }
  }

  lemma EmitSegment(g: Graph, s0: Search, s: Search, c: seq<string>)
    requires Shape(g, s) && Emitted(g, s) && s0.stack <= s.stack
    requires Distinct(c) && Elements(c) == Elements(s.stack[|s0.stack|..])
    requires IsComponent(g, Elements(c))
    ensures Emitted(g, Emit(s, |s0.stack|, c))
  {
    hide IsComponent, Distinct, Shape, Elements, Popped;
    assert s.stack[..|s0.stack|] == s0.stack;
    PoppedGrows(s.components, c);
    SegmentApart(g, s0, s, Elements(c));
    SetsAfterEmit(s.indices.Keys, Elements(s0.stack), Elements(c), Popped(s.components));
    ApartAppends(s.components, c);
  }

  lemma SetsAfterEmit(keys: set<string>, stack: set<string>, segment: set<string>, popped: set<string>)
    requires keys == (stack + segment) + popped && (stack + segment) !! popped && stack !! segment
    ensures keys == stack + (popped + segment) && stack !! (popped + segment) && popped !! segment
  {
  }

  lemma ApartAppends(components: seq<seq<string>>, c: seq<string>)
    requires forall i, j :: 0 <= i < j < |components| ==> Elements(components[i]) !! Elements(components[j])
    requires Popped(components) !! Elements(c)
    ensures var all := components + [c]; forall i, j :: 0 <= i < j < |all| ==> Elements(all[i]) !! Elements(all[j])
  {
    forall i | 0 <= i < |components| ensures Elements(components[i]) !! Elements(c) {
      PoppedApart(components, i, Elements(c));
    }
    hide Elements, Popped;
  }

  /** The call ends at its own index: the segment it pops is a strongly connected component. */
  lemma LeaveRoot(g: Graph, s0: Search, s: Search, x: string, grey: set<string>, c: seq<string>)
    requires Inv(g, s0, grey) && x in g && Exploring(g, s0, s, x, Elements(g[x]), grey)
    requires s.low[x] == s.indices[x]
    requires Distinct(c) && Elements(c) == Elements(s.stack[|s0.stack|..])
    ensures Inv(g, Emit(s, |s0.stack|, c), grey)
    ensures Visited(g, s0, Emit(s, |s0.stack|, c), x)
  {
    SegmentIsComponent(g, s0, s, x, grey);
    EmitSegment(g, s0, s, c);
    CallFinished(g, s0, s, x, grey);
    RootInv(g, s0, s, grey, c);
    RootVisited(g, s0, s, x, c);
  }

  lemma RootVisited(g: Graph, s0: Search, s: Search, x: string, c: seq<string>)
    requires Framed(g, s0, s, x) && s.low[x] == s.indices[x]
    ensures Visited(g, s0, Emit(s, |s0.stack|, c), x)
  {
    assert Emit(s, |s0.stack|, c).stack == s0.stack;
  }

  lemma RootInv(g: Graph, s0: Search, s: Search, grey: set<string>, c: seq<string>)
    requires Inv(g, s0, grey) && Extends(s0, s) && Shape(g, s) && Finished(g, s, grey)
    requires Emitted(g, Emit(s, |s0.stack|, c))
    ensures Inv(g, Emit(s, |s0.stack|, c), grey)
  {
    var t := Emit(s, |s0.stack|, c);
    assert t.stack == s0.stack;
    OldAnchors(g, s0, t, grey);
  }

  lemma OldAnchors(g: Graph, s0: Search, t: Search, grey: set<string>)
    requires Anchored(g, s0, grey) && Extends(s0, t) && t.stack == s0.stack
    ensures Anchored(g, t, grey)
  {
    forall y | y in t.stack ensures AnchoredAt(g, t, grey, y) {
      assert AnchoredAt(g, s0, grey, y);
      var z :| z in grey && z in s0.indices && s0.indices[z] <= s0.indices[y] && Reach(g, y, z);
      assert z in grey && z in t.indices && t.indices[z] <= t.indices[y];
    }
  }

  // ----- the search as a function of its variables -----

  ghost predicate Sound(g: Graph, s: Search) {
    s.indices.Keys <= g.Keys && s.low.Keys == s.indices.Keys
  }

  /** Pop up to and including x; the popped nodes, last pushed first. */
  function PopUntil(stack: seq<string>, x: string): (r: (seq<string>, seq<string>)) {
    if stack == [] then ([], [])
    else
      var top := stack[|stack| - 1];
      if top == x then (stack[..|stack| - 1], [top])
      else
        var r := PopUntil(stack[..|stack| - 1], x);
        (r.0, [top] + r.1)
  }

  function Visit(g: Graph, s: Search, x: string): (t: Search)
    requires Sound(g, s) && x in g && x !in s.indices
    ensures Sound(g, t) && s.indices.Keys <= t.indices.Keys && x in t.indices
    decreases g.Keys - s.indices.Keys, 0, 0
  {
    var t := FollowAll(g, Push(s, x), x, g[x]);
    if t.low[x] != t.indices[x] then t
    else
      var r := PopUntil(t.stack, x);
      t.(stack := r.0, components := t.components + [r.1])
  }

  lemma VisitUnfolds(g: Graph, s: Search, x: string)
    requires Sound(g, s) && x in g && x !in s.indices
    ensures Sound(g, Push(s, x)) && x in Push(s, x).indices
    ensures var t := FollowAll(g, Push(s, x), x, g[x]);
            Visit(g, s, x) ==
              if t.low[x] != t.indices[x] then t
              else t.(stack := PopUntil(t.stack, x).0, components := t.components + [PopUntil(t.stack, x).1])
  {
  }

  function FollowAll(g: Graph, s: Search, x: string, deps: seq<string>): (t: Search)
    requires Sound(g, s) && x in s.indices
    ensures Sound(g, t) && s.indices.Keys <= t.indices.Keys
    decreases g.Keys - s.indices.Keys, 2, |deps|
  {
    if deps == [] then s else FollowAll(g, Follow(g, s, x, deps[0]), x, deps[1..])
  }

  function Follow(g: Graph, s: Search, x: string, d: string): (t: Search)
    requires Sound(g, s) && x in s.indices
    ensures Sound(g, t) && s.indices.Keys <= t.indices.Keys
    decreases g.Keys - s.indices.Keys, 1, 0
  {
    if d !in g then s
    else if d !in s.indices then
      var t := Visit(g, s, d);
      SetLow(t, x, Min(t.low[x], t.low[d]))
    else if d in s.stack then SetLow(s, x, Min(s.low[x], s.indices[d]))
    else s
  }

  function SearchFrom(g: Graph, s: Search, order: seq<string>): (t: Search)
    requires Sound(g, s) && forall v :: v in order ==> v in g
    ensures Sound(g, t) && s.indices.Keys <= t.indices.Keys
    ensures forall v :: v in order ==> v in t.indices
    decreases |order|
  {
    if order == [] then s
    else SearchFrom(g, if order[0] in s.indices then s else Visit(g, s, order[0]), order[1..])
  }

  const INITIAL := Search(0, map[], map[], [], [])

  /** The components found when the roots are tried in the given order. */
  function Components(g: Graph, order: seq<string>): seq<seq<string>>
    requires forall v :: v in order ==> v in g
  {
    SearchFrom(g, INITIAL, order).components
  }

  lemma {:induction false} PopUntilSplits(stack: seq<string>, n: nat)
    requires Distinct(stack) && n < |stack|
    ensures PopUntil(stack, stack[n]).0 == stack[..n]
    ensures Distinct(PopUntil(stack, stack[n]).1)
    ensures Elements(PopUntil(stack, stack[n]).1) == Elements(stack[n..])
    decreases |stack|
  {
    var m := |stack| - 1;
    var rest, top := stack[..m], stack[m];
    assert stack == rest + [top];
    if n == m {
      assert stack[n..] == [top];
    } else {
      assert rest[n] == stack[n] && top != stack[n];
      PopUntilSplits(rest, n);
      assert rest[..n] == stack[..n];
      TailSplits(rest, top, n);
      assert top !in rest;
    }
  }

  lemma TailSplits(rest: seq<string>, top: string, n: nat)
    requires n < |rest|
    ensures Elements((rest + [top])[n..]) == {top} + Elements(rest[n..])
  {
    assert (rest + [top])[n..] == rest[n..] + [top];
  }

  lemma {:induction false} VisitCorrect(g: Graph, s0: Search, x: string, grey: set<string>)
    requires Sound(g, s0) && Inv(g, s0, grey) && x in g && x !in s0.indices
    requires forall z :: z in grey ==> Reach(g, z, x)
    ensures Inv(g, Visit(g, s0, x), grey) && Visited(g, s0, Visit(g, s0, x), x)
    decreases g.Keys - s0.indices.Keys, 0, 0
  {
    EnterCall(g, s0, x, grey);
    var s := FollowAll(g, Push(s0, x), x, g[x]);
    FollowAllCorrect(g, s0, Push(s0, x), x, {}, g[x], grey);
    assert {} + Elements(g[x]) == Elements(g[x]);
    if s.low[x] != s.indices[x] {
      LeaveStacked(g, s0, s, x, grey);
    } else {
      RootSplit(g, s0, s, x);
      LeaveRoot(g, s0, s, x, grey, PopUntil(s.stack, x).1);
    }
  }

  lemma RootSplit(g: Graph, s0: Search, s: Search, x: string)
    requires Framed(g, s0, s, x) && Shape(g, s)
    ensures var r := PopUntil(s.stack, x);
            r.0 == s.stack[..|s0.stack|] && Distinct(r.1) && Elements(r.1) == Elements(s.stack[|s0.stack|..])
  {
    assert s.stack[|s0.stack|] == x;
    PopUntilSplits(s.stack, |s0.stack|);
  }

  lemma {:induction false} FollowAllCorrect(g: Graph, s0: Search, s: Search, x: string,
                                            scanned: set<string>, deps: seq<string>, grey: set<string>)
    requires Sound(g, s) && x in s.indices && Elements(deps) <= Elements(g[x])
    requires Exploring(g, s0, s, x, scanned, grey)
    requires forall z :: z in grey ==> Reach(g, z, x)
    ensures Exploring(g, s0, FollowAll(g, s, x, deps), x, scanned + Elements(deps), grey)
    decreases g.Keys - s.indices.Keys, 2, |deps|
  {
    hide Inv, Progress;
    if deps == [] {
      assert scanned + Elements(deps) == scanned;
    } else {
      var d := deps[0];
      assert d in Elements(deps) && d in g[x];
      FollowCorrect(g, s0, s, x, scanned, d, grey);
      assert deps == [d] + deps[1..];
      assert scanned + Elements(deps) == (scanned + {d}) + Elements(deps[1..]);
      FollowAllCorrect(g, s0, Follow(g, s, x, d), x, scanned + {d}, deps[1..], grey);
    }
  }

  lemma {:induction false} FollowCorrect(g: Graph, s0: Search, s: Search, x: string, scanned: set<string>, d: string,
                                         grey: set<string>)
    requires Sound(g, s) && x in s.indices && d in g[x]
    requires Exploring(g, s0, s, x, scanned, grey)
    requires forall z :: z in grey ==> Reach(g, z, x)
    ensures Exploring(g, s0, Follow(g, s, x, d), x, scanned + {d}, grey)
    decreases g.Keys - s.indices.Keys, 1, 0
  {
    if d in g && d !in s.indices {
      ActiveReach(g, x, d, grey);
      VisitCorrect(g, s, d, grey + {x});
      FollowNew(g, s0, s, Visit(g, s, d), x, scanned, d, grey);
    } else if d in g && d in s.stack {
      AfterStacked(g, s0, s, x, scanned, d, grey);
    } else {
      AfterSkipped(g, s0, s, x, scanned, d, grey);
    }
  }

  lemma FollowNew(g: Graph, s0: Search, s: Search, t: Search, x: string, scanned: set<string>, d: string,
                  grey: set<string>)
    requires Progress(g, s0, s, x, scanned) && Shape(g, s)
    requires Edge(g, x, d) && d !in s.indices && Visited(g, s, t, d)
    requires Inv(g, t, grey + {x})
    ensures x in t.low
    ensures Exploring(g, s0, SetLow(t, x, Min(t.low[x], t.low[d])), x, scanned + {d}, grey)
  {
    AfterChild(g, s0, s, t, x, scanned, d);
    InvIgnoresLow(g, t, SetLow(t, x, Min(t.low[x], t.low[d])), grey + {x});
  }

  lemma {:induction false} SearchFromCorrect(g: Graph, s: Search, order: seq<string>)
    requires Sound(g, s) && Inv(g, s, {}) && forall v :: v in order ==> v in g
    ensures Inv(g, SearchFrom(g, s, order), {})
    decreases |order|
  {
    hide Inv;
    if order != [] {
      if order[0] !in s.indices {
        VisitCorrect(g, s, order[0], {});
      }
      SearchFromCorrect(g, if order[0] in s.indices then s else Visit(g, s, order[0]), order[1..]);
    }
  }

  lemma InitialInv(g: Graph)
    ensures Inv(g, INITIAL, {})
  {
    assert Popped([]) == {};
  }

  /** With no active call the stack is empty: everything visited has been emitted. */
  lemma QuiescentStack(g: Graph, s: Search)
    requires Inv(g, s, {})
    ensures s.stack == [] && s.indices.Keys == Popped(s.components)
  {
    assert s.stack != [] ==> AnchoredAt(g, s, {}, s.stack[0]);
  }

  /** The search emits exactly the strongly connected components: each once, each node in one,
      whatever the order in which the roots are tried. */
  lemma TarjanFindsComponents(g: Graph, order: seq<string>)
    requires Elements(order) == g.Keys
    ensures var cs := Components(g, order);
            && (forall c :: c in cs ==> Distinct(c) && IsComponent(g, Elements(c)))
            && (forall v :: v in g ==> exists i :: 0 <= i < |cs| && v in cs[i] && Elements(cs[i]) == Component(g, v))
            && (forall i, j :: 0 <= i < j < |cs| ==> Elements(cs[i]) !! Elements(cs[j]))
  {
    forall v | v in order ensures v in g { assert v in Elements(order); }
    InitialInv(g);
    SearchFromCorrect(g, INITIAL, order);
    var s := SearchFrom(g, INITIAL, order);
    QuiescentStack(g, s);
    var cs := s.components;
    forall v | v in g ensures exists i :: 0 <= i < |cs| && v in cs[i] && Elements(cs[i]) == Component(g, v) {
      assert v in Elements(order);
      assert v in Popped(cs);
      var i :| 0 <= i < |cs| && v in cs[i];
      ComponentUnique(g, Elements(cs[i]), v);
    }
  }

  lemma StackDistinct(g: Graph, s: Search)
    requires Shape(g, s)
    ensures Distinct(s.stack)
  {
  }
}
