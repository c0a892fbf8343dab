/** When `lookupPath` does not return. Some references are followed whatever the path is; a cycle of
    those that makes the path grow is never cut off, by no guard and at no recursion depth. */
module PathDivergence {
  import opened Basics
  import opened PathLookup
  import opened PathVisits
  import opened PathTermination

  // ----- references that are followed on every path -----

  /** Whatever the path is, the walk through t comes to e with `growth` steps more: it passes only
      parentheses, operators, wrappers, branches and indexed accesses on the way. */
  ghost predicate Surely(w: World, file: string, t: Ty, e: string, growth: nat) {
    match t
    case Parenthesized(inner) => Surely(w, file, inner, e, growth)
    case Intersection(parts) => exists i :: 0 <= i < |parts| && Surely(w, file, parts[i], e, growth)
    case Union(parts) => exists i :: 0 <= i < |parts| && Surely(w, file, parts[i], e, growth)
    case Operator(operand) => Surely(w, file, operand, e, growth)
    case Indexed(target, index) => index.Some? && growth > 0 && Surely(w, file, target, e, growth - 1)
    case Reference(name, qualified, args) =>
      if name in WRAPPERS && args != [] then Surely(w, file, args[0], e, growth)
      else if (name == "Array" || name == "ReadonlyArray") && args != [] then false
      else !qualified && DeclFor(w, file, name) == Some(e) && growth == 0
    case _ => false
  }

  ghost predicate DeclSurely(w: World, d: string, e: string, growth: nat) {
    && d in w.decls && w.decls[d].decl.Alias?
    && e in w.decls && !w.decls[e].decl.Enum?
    && Surely(w, w.decls[d].file, w.decls[d].decl.ty, e, growth)
  }

  ghost predicate SureWalk(w: World, d: string, hops: seq<Hop>)
    decreases |hops|
  {
    hops == [] ||
    (hops[0].growth >= 0 && DeclSurely(w, d, hops[0].to, hops[0].growth) && SureWalk(w, hops[0].to, hops[1..]))
  }

  /** Along sure references d leads into a cycle of sure references that makes the path grow. */
  ghost predicate SureGrowingCycle(w: World, d: string) {
    exists there, around :: SureWalk(w, d, there) && SureCycle(w, End(d, there), around) && Growth(around) > 0
  }

  ghost predicate SureCycle(w: World, d: string, around: seq<Hop>) {
    SureWalk(w, d, around) && End(d, around) == d
  }

  lemma {:induction false} SureTy(w: World, file: string, t: Ty, steps: seq<Step>, seen: Seen, fuel: nat, e: string,
                                  growth: nat)
    requires steps != [] && e in w.decls && !w.decls[e].decl.Enum? && Surely(w, file, t, e, growth)
    ensures var a := LookupTy(w, file, t, steps, seen, fuel); a.Answer? ==> (e, |steps| + growth) in a.seen
    decreases t
  {
    if fuel > 0 {
      match t {
        case Parenthesized(inner) => SureTy(w, file, inner, steps, seen, fuel - 1, e, growth);
        case Intersection(parts) => SurePart(w, file, parts, steps, seen, fuel - 1, e, growth);
        case Union(parts) => SurePart(w, file, parts, steps, seen, fuel - 1, e, growth);
        case Operator(operand) => SureTy(w, file, operand, steps, seen, fuel - 1, e, growth);
        case Indexed(target, index) =>
          SureTy(w, file, target, [Member(index.value)] + steps, seen, fuel - 1, e, growth - 1);
        case Reference(name, qualified, args) =>
          if name in WRAPPERS && args != [] { SureTy(w, file, args[0], steps, seen, fuel - 1, e, growth); }
      }
    }
  }

  lemma {:induction false} SurePart(w: World, file: string, ts: seq<Ty>, steps: seq<Step>, seen: Seen, fuel: nat,
                                    e: string, growth: nat)
    requires steps != [] && e in w.decls && !w.decls[e].decl.Enum?
    requires exists i :: 0 <= i < |ts| && Surely(w, file, ts[i], e, growth)
    ensures var a := LookupEach(w, file, ts, steps, seen, fuel); a.Answers? ==> (e, |steps| + growth) in a.seen
    decreases ts
  {
    hide Surely;
    var i :| 0 <= i < |ts| && Surely(w, file, ts[i], e, growth);
    if i == 0 {
      SureTy(w, file, ts[0], steps, seen, fuel, e, growth);
    } else {
      assert ts[1..][i - 1] == ts[i];
      var first := LookupTy(w, file, ts[0], steps, seen, fuel);
      if first.Answer? { SurePart(w, file, ts[1..], steps, first.seen, fuel, e, growth); }
    }
  }

  // ----- what a finished walk has visited -----

  /** Everything that the visits since `before` surely refer to has been visited, too. */
  ghost predicate Closed(w: World, before: Seen, after: Seen) {
    forall d, n, e, growth :: (d, n) in after && (d, n) !in before && DeclSurely(w, d, e, growth) ==>
      (e, n + growth) in after
  }

  lemma ClosedNothing(w: World, seen: Seen)
    ensures Closed(w, seen, seen)
  {
  }

  lemma ClosedBoth(w: World, before: Seen, middle: Seen, after: Seen)
    requires Closed(w, before, middle) && Closed(w, middle, after) && middle <= after
    ensures Closed(w, before, after)
  {
    hide DeclSurely;
  }

  lemma {:induction false} ClosedDecl(w: World, d: string, steps: seq<Step>, seen: Seen, fuel: nat)
    requires d in w.decls
    ensures var a := LookupDecl(w, d, steps, seen, fuel); a.Answer? ==> Closed(w, seen, a.seen)
    decreases fuel, 0, 0
  {
    hide Closed, Surely;
    ClosedNothing(w, seen);
    if fuel > 0 && steps != [] && !w.decls[d].decl.Enum? && (d, |steps|) !in seen {
      var file, seen' := w.decls[d].file, seen + {(d, |steps|)};
      ClosedNothing(w, seen');
      match w.decls[d].decl {
        case Alias(ty) =>
          ClosedTy(w, file, ty, steps, seen', fuel - 1);
        case Interface(members, bases) =>
          if steps[0].Member? {
            var i := FieldIndex(members, steps[0].name);
            if i != -1 {
              ClosedField(w, file, members[i], steps, seen', fuel - 1);
            } else {
              ClosedBases(w, file, bases, steps, seen', fuel - 1);
            }
          }
      }
      ClosedOwn(w, d, steps, seen, fuel);
    }
  }

  lemma ClosedOwn(w: World, d: string, steps: seq<Step>, seen: Seen, fuel: nat)
    requires d in w.decls && steps != [] && fuel > 0
    ensures var a := LookupDecl(w, d, steps, seen, fuel);
            a.Answer? && (d, |steps|) !in seen && Closed(w, seen + {(d, |steps|)}, a.seen) ==> Closed(w, seen, a.seen)
  {
    hide LookupTy, LookupBases, LookupField, Surely;
    var a := LookupDecl(w, d, steps, seen, fuel);
    if a.Answer? && (d, |steps|) !in seen {
      forall e, growth | DeclSurely(w, d, e, growth) ensures (e, |steps| + growth) in a.seen {
        SureTy(w, w.decls[d].file, w.decls[d].decl.ty, steps, seen + {(d, |steps|)}, fuel - 1, e, growth);
      }
    }
  }

  lemma ClosedField(w: World, file: string, field: Field, steps: seq<Step>, seen: Seen, fuel: nat)
    requires field.Property? && steps != []
    ensures var a := LookupField(w, file, field, steps, seen, fuel); a.Answer? ==> Closed(w, seen, a.seen)
    decreases fuel, 1, 0
  {
    hide Closed;
    ClosedNothing(w, seen);
    if |steps| > 1 && field.ty.Some? { ClosedTy(w, file, field.ty.value, steps[1..], seen, fuel); }
  }

  lemma {:induction false} ClosedBases(w: World, file: string, bases: seq<Option<string>>, steps: seq<Step>, seen: Seen,
                                       fuel: nat)
    ensures var a := LookupBases(w, file, bases, steps, seen, fuel); a.Answers? ==> Closed(w, seen, a.seen)
    decreases fuel, 1, |bases|
  {
    hide Closed;
    ClosedNothing(w, seen);
    if bases != [] {
      var d := if bases[0].None? then None else DeclFor(w, file, bases[0].value);
      if d.Some? { ClosedDecl(w, d.value, steps, seen, fuel); }
      var first := if d.None? then Answer(Unknown, seen, false) else LookupDecl(w, d.value, steps, seen, fuel);
      if first.Answer? {
        ClosedBases(w, file, bases[1..], steps, first.seen, fuel);
        var rest := LookupBases(w, file, bases[1..], steps, first.seen, fuel);
        if rest.Answers? { ClosedBoth(w, seen, first.seen, rest.seen); }
      }
    }
  }

  lemma {:induction false} ClosedEach(w: World, file: string, ts: seq<Ty>, steps: seq<Step>, seen: Seen, fuel: nat)
    ensures var a := LookupEach(w, file, ts, steps, seen, fuel); a.Answers? ==> Closed(w, seen, a.seen)
    decreases fuel, 1, |ts|
  {
    hide Closed;
    ClosedNothing(w, seen);
    if ts != [] {
      ClosedTy(w, file, ts[0], steps, seen, fuel);
      var first := LookupTy(w, file, ts[0], steps, seen, fuel);
      if first.Answer? {
        ClosedEach(w, file, ts[1..], steps, first.seen, fuel);
        var rest := LookupEach(w, file, ts[1..], steps, first.seen, fuel);
        if rest.Answers? { ClosedBoth(w, seen, first.seen, rest.seen); }
      }
    }
  }

  lemma {:induction false} ClosedTy(w: World, file: string, t: Ty, steps: seq<Step>, seen: Seen, fuel: nat)
    ensures var a := LookupTy(w, file, t, steps, seen, fuel); a.Answer? ==> Closed(w, seen, a.seen)
    decreases fuel, 0, 0
  {
    hide Closed, LookupTy, Next, NextDecl, NextField;
    ClosedNothing(w, seen);
    if fuel == 0 {
      NoFuelNoAnswer(w, file, t, steps, seen);
    } else if steps == [] {
      LookupEnds(w, file, t, steps, seen, fuel - 1);
    } else if Next(t, steps).Some? {
      LookupNext(w, file, t, steps, seen, fuel - 1);
      ClosedTy(w, file, Next(t, steps).value.0, Next(t, steps).value.1, seen, fuel - 1);
    } else if NextDecl(w, file, t).Some? {
      LookupNextDecl(w, file, t, steps, seen, fuel - 1);
      ClosedDecl(w, NextDecl(w, file, t).value, steps, seen, fuel - 1);
    } else if NextField(t, steps).Some? {
      LookupNextField(w, file, t, steps, seen, fuel - 1);
      ClosedField(w, file, NextField(t, steps).value, steps, seen, fuel - 1);
    } else if t.Intersection? || t.Union? {
      LookupParts(w, file, t, t.parts, steps, seen, fuel - 1);
      ClosedEach(w, file, t.parts, steps, seen, fuel - 1);
    } else {
      LookupEnds(w, file, t, steps, seen, fuel - 1);
    }
  }

  // ----- a growing cycle is never finished -----

  lemma {:induction false} VisitedAlong(w: World, d: string, hops: seq<Hop>, n: nat, before: Seen, after: Seen)
    requires Closed(w, before, after) && SureWalk(w, d, hops) && (d, n) in after
    requires forall e, k :: (e, k) in before ==> k < n
    ensures Growth(hops) >= 0 && (End(d, hops), n + Growth(hops)) in after
    decreases |hops|
  {
    hide DeclSurely;
    if hops != [] {
      VisitedAlong(w, hops[0].to, hops[1..], n + hops[0].growth, before, after);
      assert End(hops[0].to, hops[1..]) == End(d, hops);
    }
  }

  lemma {:induction false} VisitedAgain(w: World, d: string, around: seq<Hop>, n: nat, laps: nat, before: Seen,
                                        after: Seen)
    requires Closed(w, before, after) && SureCycle(w, d, around) && Growth(around) > 0 && (d, n) in after
    requires forall e, k :: (e, k) in before ==> k < n
    ensures exists k: nat :: k >= n + laps && (d, k) in after
    decreases laps
  {
    if laps > 0 {
      VisitedAlong(w, d, around, n, before, after);
      VisitedAgain(w, d, around, n + Growth(around), laps - 1, before, after);
    }
  }

  /** Whatever the path, and however deep the recursion may go, the walk does not come back from a cycle
      of sure references that makes the path grow. */
  lemma GrowingCycleNeverReturns(w: World, d: string, steps: seq<Step>, seen: Seen, fuel: nat)
    requires d in w.decls && steps != [] && SureGrowingCycle(w, d)
    requires forall e, n :: (e, n) in seen ==> n < |steps|
    ensures LookupDecl(w, d, steps, seen, fuel).OutOfFuel?
  {
    var there, around :| SureWalk(w, d, there) && SureCycle(w, End(d, there), around) && Growth(around) > 0;
    var a := LookupDecl(w, d, steps, seen, fuel);
    if a.Answer? {
      ClosedDecl(w, d, steps, seen, fuel);
      EntersFirst(w, d, there, around, steps, seen, fuel);
      hide LookupDecl, SureWalk, Closed;
      VisitedAlong(w, d, there, |steps|, seen, a.seen);
      var longest := Longest(a.seen);
      VisitedAgain(w, End(d, there), around, |steps| + Growth(there), longest + 1, seen, a.seen);
      assert false;
    }
  }

  lemma EntersFirst(w: World, d: string, there: seq<Hop>, around: seq<Hop>, steps: seq<Step>, seen: Seen, fuel: nat)
    requires d in w.decls && steps != [] && SureWalk(w, d, there) && SureCycle(w, End(d, there), around) &&
             Growth(around) > 0
    ensures var a := LookupDecl(w, d, steps, seen, fuel); a.Answer? ==> (d, |steps|) in a.seen
  {
    hide LookupTy;
    assert w.decls[d].decl.Alias? by { assert DeclSurely(w, d, (there + around)[0].to, (there + around)[0].growth); }
  }

  // ----- exactly when the walk returns -----

  /** All references between the declarations that d leads to are sure. */
  ghost predicate AllSure(w: World, d: string) {
    forall e, f, growth :: Reaches(w, d, e) && DeclRefers(w, e, f, growth) && !w.decls[f].decl.Enum? ==>
      growth >= 0 && DeclSurely(w, e, f, growth)
  }

  lemma {:induction false} WalkIsSure(w: World, root: string, there: seq<Hop>, d: string, hops: seq<Hop>)
    requires AllSure(w, root) && Walk(w, root, there) && End(root, there) == d
    requires Walk(w, d, hops) && End(d, hops) in w.decls && !w.decls[End(d, hops)].decl.Enum?
    ensures SureWalk(w, d, hops)
    decreases |hops|
  {
    if hops != [] {
      assert Reaches(w, root, d);
      NextHop(w, root, there, d, hops);
      assert End(hops[0].to, hops[1..]) == End(d, hops);
      assert hops[1..] != [] ==> DeclRefers(w, hops[0].to, hops[1..][0].to, hops[1..][0].growth);
      assert !w.decls[hops[0].to].decl.Enum?;
      WalkIsSure(w, root, there + [hops[0]], hops[0].to, hops[1..]);
    }
  }

  lemma GrowingIsSure(w: World, d: string)
    requires AllSure(w, d) && !NoGrowingCycle(w, d)
    ensures SureGrowingCycle(w, d)
  {
    hide AllSure;
    var there: seq<Hop>, around: seq<Hop> :|
        Walk(w, d, there) && Walk(w, End(d, there), around) && End(End(d, there), around) == End(d, there)
                         && Growth(around) > 0;
    var e := End(d, there);
    assert DeclRefers(w, e, around[0].to, around[0].growth);
    WalkIsSure(w, d, there, e, around);
    assert Walk(w, d, []) && End(d, []) == d;
    WalkIsSure(w, d, [], d, there);
    assert SureCycle(w, e, around);
  }

  /** Where all references are sure, the lookup of any path returns if and only if no cycle of references
      makes the path grow. */
  lemma ReturnsExactly(w: World, d: string, steps: seq<Step>)
    requires d in w.decls && steps != [] && AllSure(w, d)
    ensures (exists fuel: nat :: LookupDecl(w, d, steps, {}, fuel).Answer?) <==> NoGrowingCycle(w, d)
  {
    if NoGrowingCycle(w, d) {
      LookupReturns(w, d, steps);
    } else {
      GrowingIsSure(w, d);
      forall fuel: nat ensures !LookupDecl(w, d, steps, {}, fuel).Answer? {
        GrowingCycleNeverReturns(w, d, steps, {}, fuel);
      }
    }
  }

  /** `type A = A['x']`. */
  const GROWING := World(
    map["A" := Located("f.ts", Alias(Indexed(Reference("A", false, []), Some("x"))))],
    map[("f.ts", "A") := "A"])

  lemma GrowingNeverReturns(steps: seq<Step>, seen: Seen, fuel: nat)
    requires steps != [] && forall d, n :: (d, n) in seen ==> n < |steps|
    ensures LookupDecl(GROWING, "A", steps, seen, fuel).OutOfFuel?
  {
    var w, a, around := GROWING, Reference("A", false, []), [Hop("A", 1)];
    assert DeclFor(w, "f.ts", "A") == Some("A");
    assert Surely(w, "f.ts", a, "A", 0);
    assert Surely(w, "f.ts", Indexed(a, Some("x")), "A", 1);
    assert SureWalk(w, "A", around[1..]) && Growth(around[1..]) == 0;
    assert SureWalk(w, "A", []) && SureCycle(w, End("A", []), around) && Growth(around) > 0;
    GrowingCycleNeverReturns(w, "A", steps, seen, fuel);
  }
}
