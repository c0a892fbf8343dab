/** When `lookupPath` answers exactly. Its guard ends a walk at a declaration that some branch has met
    before with as many steps left, whether the types are recursive or not; so it answers exactly as
    long as no such visit repeats. */
module PathExactness {
  import opened Basics
  import opened Packages
  import opened PathLookup
  import opened PathVisits
  import opened PathTermination

  // ----- the guard answers exactly where a visit repeats -----

  /** The visits are new, and different from each other. */
  ghost predicate Fresh(visits: seq<Visit>, seen: Seen) {
    Distinct(visits) && forall v :: v in visits ==> v !in seen
  }

  lemma FreshConcat(a: seq<Visit>, b: seq<Visit>, seen: Seen)
    ensures Fresh(a + b, seen) <==> Fresh(a, seen) && Fresh(b, seen + Elements(a))
    ensures seen + Elements(a + b) == (seen + Elements(a)) + Elements(b)
  {
    var all := a + b;
    if Fresh(all, seen) {
      assert forall i :: 0 <= i < |a| ==> all[i] == a[i];
      forall j | 0 <= j < |b| ensures b[j] !in seen + Elements(a) {
        assert all[|a| + j] == b[j];
      }
      forall i, j | 0 <= i < j < |b| ensures b[i] != b[j] { assert all[|a| + i] != all[|a| + j]; }
    }
    if Fresh(a, seen) && Fresh(b, seen + Elements(a)) { DistinctConcat(a, b); }
  }

  lemma FreshOne(v: Visit, rest: seq<Visit>, seen: Seen)
    ensures Fresh([v] + rest, seen) <==> v !in seen && Fresh(rest, seen + {v})
    ensures seen + Elements([v] + rest) == (seen + {v}) + Elements(rest)
  {
    FreshConcat([v], rest, seen);
    assert Elements([v]) == {v};
  }

  /** The guard has not answered exactly if all visits were fresh; then they are what it remembers. */
  ghost predicate Guards(cut: bool, after: Seen, visits: seq<Visit>, seen: Seen) {
    (!cut <==> Fresh(visits, seen)) && (!cut ==> after == seen + Elements(visits))
  }

  lemma GuardsNothing(seen: Seen)
    ensures Guards(false, seen, [], seen)
  {
  }

  lemma GuardsBoth(cut: bool, middle: Seen, a: seq<Visit>, cut': bool, after: Seen, b: seq<Visit>, seen: Seen)
    requires Guards(cut, middle, a, seen) && Guards(cut', after, b, middle)
    ensures Guards(cut || cut', after, a + b, seen)
  {
    FreshConcat(a, b, seen);
  }

  lemma {:induction false} GuardDecl(w: World, d: string, steps: seq<Step>, seen: Seen, fuel: nat)
    requires d in w.decls
    ensures var a := LookupDecl(w, d, steps, seen, fuel);
            a.Answer? ==> Guards(a.cut, a.seen, DeclVisits(w, d, steps, fuel), seen)
    decreases fuel, 0, 0
  {
    hide Guards;
    GuardsNothing(seen);
    if fuel > 0 && steps != [] && !w.decls[d].decl.Enum? {
      var v := (d, |steps|);
      if v in seen {
        GuardsRepeat(v, BodyVisits(w, d, steps, fuel - 1), seen);
      } else {
        GuardBody(w, d, steps, seen + {v}, fuel);
        var a := LookupDecl(w, d, steps, seen, fuel);
        if a.Answer? { GuardsFirst(a.cut, a.seen, v, BodyVisits(w, d, steps, fuel - 1), seen); }
      }
    }
  }

  lemma GuardsRepeat(v: Visit, rest: seq<Visit>, seen: Seen)
    requires v in seen
    ensures Guards(true, seen, [v] + rest, seen)
  {
    FreshOne(v, rest, seen);
  }

  lemma GuardsFirst(cut: bool, after: Seen, v: Visit, rest: seq<Visit>, seen: Seen)
    requires v !in seen && Guards(cut, after, rest, seen + {v})
    ensures Guards(cut, after, [v] + rest, seen)
  {
    FreshOne(v, rest, seen);
  }

  lemma {:induction false} GuardBody(w: World, d: string, steps: seq<Step>, seen: Seen, fuel: nat)
    requires d in w.decls && steps != [] && !w.decls[d].decl.Enum? && fuel > 0
    ensures var v := (d, |steps|);
            var a := LookupDecl(w, d, steps, seen - {v}, fuel);
            v in seen && a.Answer? ==> Guards(a.cut, a.seen, BodyVisits(w, d, steps, fuel - 1), seen)
    decreases fuel - 1, 2, 0
  {
    hide Guards;
    GuardsNothing(seen);
    var v, file := (d, |steps|), w.decls[d].file;
    if v in seen {
      assert (seen - {v}) + {v} == seen;
      match w.decls[d].decl {
        case Alias(ty) => GuardTy(w, file, ty, steps, seen, fuel - 1);
        case Interface(members, bases) =>
          if steps[0].Member? {
            var i := FieldIndex(members, steps[0].name);
            if i != -1 {
              GuardField(w, file, members[i], steps, seen, fuel - 1);
            } else {
              GuardBases(w, file, bases, steps, seen, fuel - 1);
            }
          }
      }
    }
  }

  lemma GuardField(w: World, file: string, field: Field, steps: seq<Step>, seen: Seen, fuel: nat)
    requires field.Property? && steps != []
    ensures var a := LookupField(w, file, field, steps, seen, fuel);
            a.Answer? ==> Guards(a.cut, a.seen, FieldVisits(w, file, field, steps, fuel), seen)
    decreases fuel, 1, 0
  {
    hide Guards;
    GuardsNothing(seen);
    if |steps| > 1 && field.ty.Some? { GuardTy(w, file, field.ty.value, steps[1..], seen, fuel); }
  }

  lemma {:induction false} GuardBases(w: World, file: string, bases: seq<Option<string>>, steps: seq<Step>, seen: Seen,
                                      fuel: nat)
    ensures var a := LookupBases(w, file, bases, steps, seen, fuel);
            a.Answers? ==> Guards(a.cut, a.seen, BasesVisits(w, file, bases, steps, fuel), seen)
    decreases fuel, 1, |bases|
  {
    hide Guards;
    GuardsNothing(seen);
    if bases != [] {
      var d := if bases[0].None? then None else DeclFor(w, file, bases[0].value);
      if d.Some? { GuardDecl(w, d.value, steps, seen, fuel); }
      var first := if d.None? then Answer(Unknown, seen, false) else LookupDecl(w, d.value, steps, seen, fuel);
      if first.Answer? {
        GuardBases(w, file, bases[1..], steps, first.seen, fuel);
        var rest := LookupBases(w, file, bases[1..], steps, first.seen, fuel);
        if rest.Answers? {
          GuardsBoth(first.cut, first.seen, BaseVisits(w, file, bases[0], steps, fuel),
                     rest.cut, rest.seen, BasesVisits(w, file, bases[1..], steps, fuel), seen);
        }
      }
    }
  }

  lemma {:induction false} GuardEach(w: World, file: string, ts: seq<Ty>, steps: seq<Step>, seen: Seen, fuel: nat)
    ensures var a := LookupEach(w, file, ts, steps, seen, fuel);
            a.Answers? ==> Guards(a.cut, a.seen, EachVisits(w, file, ts, steps, fuel), seen)
    decreases fuel, 1, |ts|
  {
    hide Guards;
    GuardsNothing(seen);
    if ts != [] {
      GuardTy(w, file, ts[0], steps, seen, fuel);
      var first := LookupTy(w, file, ts[0], steps, seen, fuel);
      if first.Answer? {
        GuardEach(w, file, ts[1..], steps, first.seen, fuel);
        var rest := LookupEach(w, file, ts[1..], steps, first.seen, fuel);
        if rest.Answers? {
          GuardsBoth(first.cut, first.seen, TyVisits(w, file, ts[0], steps, fuel),
                     rest.cut, rest.seen, EachVisits(w, file, ts[1..], steps, fuel), seen);
        }
      }
    }
  }

  lemma {:induction false} GuardTy(w: World, file: string, t: Ty, steps: seq<Step>, seen: Seen, fuel: nat)
    ensures var a := LookupTy(w, file, t, steps, seen, fuel);
            a.Answer? ==> Guards(a.cut, a.seen, TyVisits(w, file, t, steps, fuel), seen)
    decreases fuel, 0, 0
  {
    hide Guards, LookupTy, Next, NextDecl, NextField;
    if fuel == 0 {
      NoFuelNoAnswer(w, file, t, steps, seen);
    } else if steps == [] {
      GuardsNothing(seen);
      LookupEnds(w, file, t, steps, seen, fuel - 1);
    } else if Next(t, steps).Some? {
      LookupNext(w, file, t, steps, seen, fuel - 1);
      GuardTy(w, file, Next(t, steps).value.0, Next(t, steps).value.1, seen, fuel - 1);
    } else if NextDecl(w, file, t).Some? {
      LookupNextDecl(w, file, t, steps, seen, fuel - 1);
      GuardDecl(w, NextDecl(w, file, t).value, steps, seen, fuel - 1);
    } else if NextField(t, steps).Some? {
      LookupNextField(w, file, t, steps, seen, fuel - 1);
      GuardField(w, file, NextField(t, steps).value, steps, seen, fuel - 1);
    } else if t.Intersection? || t.Union? {
      LookupParts(w, file, t, t.parts, steps, seen, fuel - 1);
      GuardEach(w, file, t.parts, steps, seen, fuel - 1);
    } else {
      GuardsNothing(seen);
      LookupEnds(w, file, t, steps, seen, fuel - 1);
    }
  }

  // ----- exactness, path by path -----

  /** However far it goes, the walk without its guard never enters a declaration twice with as many
      steps left. */
  ghost predicate NeverRepeats(w: World, d: string, steps: seq<Step>)
    requires d in w.decls
  {
    forall fuel :: Distinct(DeclVisits(w, d, steps, fuel))
  }

  /** The guard has cut a finished walk off if and only if some visit repeats without it. */
  lemma CutIffRepeats(w: World, d: string, steps: seq<Step>, fuel: nat)
    requires d in w.decls && LookupDecl(w, d, steps, {}, fuel).Answer?
    ensures !LookupDecl(w, d, steps, {}, fuel).cut <==> NeverRepeats(w, d, steps)
  {
    CutAt(w, d, steps, fuel);
    if !LookupDecl(w, d, steps, {}, fuel).cut {
      forall n: nat ensures Distinct(DeclVisits(w, d, steps, n)) {
        if n <= fuel {
          MoreDecl(w, d, steps, n, fuel);
          FewerDistinct(DeclVisits(w, d, steps, n), DeclVisits(w, d, steps, fuel));
        } else {
          MoreFuelDecl(w, d, steps, {}, fuel, n);
          CutAt(w, d, steps, n);
        }
      }
    }
  }

  lemma CutAt(w: World, d: string, steps: seq<Step>, fuel: nat)
    requires d in w.decls && LookupDecl(w, d, steps, {}, fuel).Answer?
    ensures !LookupDecl(w, d, steps, {}, fuel).cut <==> Distinct(DeclVisits(w, d, steps, fuel))
  {
    GuardDecl(w, d, steps, {}, fuel);
  }

  /** On a path without repeated visits the three answers mean what they say, in both directions. */
  lemma ExactWithoutRepeats(w: World, d: string, steps: seq<Step>, fuel: nat)
    requires d in w.decls && UnionsNonEmpty(w) && LookupDecl(w, d, steps, {}, fuel).Answer?
    requires NeverRepeats(w, d, steps)
    ensures var p := LookupDecl(w, d, steps, {}, fuel).presence;
            (p == Found <==> MustHave(w, d, steps)) && (p == Missing <==> !MayHave(w, d, steps))
  {
    CutIffRepeats(w, d, steps, fuel);
    LookupMeaning(w, d, steps, fuel);
  }

  /** On a path without repeated visits the lookup returns if and only if its paths stay short. */
  lemma ReturnsIfShort(w: World, d: string, steps: seq<Step>)
    requires d in w.decls && NeverRepeats(w, d, steps)
    ensures (exists fuel: nat :: LookupDecl(w, d, steps, {}, fuel).Answer?) <==>
            exists length: nat :: StaysShort(w, d, steps, length)
  {
    if length: nat :| StaysShort(w, d, steps, length) { ShortReturns(w, d, steps, length); }
    if fuel: nat :| LookupDecl(w, d, steps, {}, fuel).Answer? {
      var length := Longest(LookupDecl(w, d, steps, {}, fuel).seen);
      forall n: nat ensures Short(DeclVisits(w, d, steps, n), length) { VisitsSeen(w, d, steps, fuel, n); }
      assert StaysShort(w, d, steps, length);
    }
  }

  /** A walk that was not cut off remembers all that it enters at any depth. */
  lemma VisitsSeen(w: World, d: string, steps: seq<Step>, fuel: nat, n: nat)
    requires d in w.decls && NeverRepeats(w, d, steps) && LookupDecl(w, d, steps, {}, fuel).Answer?
    ensures forall v :: v in DeclVisits(w, d, steps, n) ==> v in LookupDecl(w, d, steps, {}, fuel).seen
  {
    hide LookupDecl, DeclVisits;
    var deep := Max(fuel, n);
    MoreFuelDecl(w, d, steps, {}, fuel, deep);
    CutIffRepeats(w, d, steps, deep);
    GuardDecl(w, d, steps, {}, deep);
    MoreDecl(w, d, steps, n, deep);
    assert forall v :: v in DeclVisits(w, d, steps, n) ==> v in multiset(DeclVisits(w, d, steps, n));
    assert forall v :: v in multiset(DeclVisits(w, d, steps, deep)) ==> v in Elements(DeclVisits(w, d, steps, deep));
  }

  // ----- what the guard never does -----

  lemma {:induction false} MissDecl(w: World, d: string, steps: seq<Step>, seen: Seen, fuel: nat)
    requires d in w.decls
    ensures var a := LookupDecl(w, d, steps, seen, fuel); a.Answer? && a.presence == Missing ==> !a.cut
    decreases fuel, 0, 0
  {
    if fuel > 0 && steps != [] && !w.decls[d].decl.Enum? && (d, |steps|) !in seen {
      var file, seen' := w.decls[d].file, seen + {(d, |steps|)};
      match w.decls[d].decl {
        case Enum =>
        case Alias(ty) => MissTy(w, file, ty, steps, seen', fuel - 1);
        case Interface(members, bases) =>
          if steps[0].Member? {
            var i := FieldIndex(members, steps[0].name);
            if i != -1 {
              MissField(w, file, members[i], steps, seen', fuel - 1);
            } else {
              MissBases(w, file, bases, steps, seen', fuel - 1);
              var a := LookupBases(w, file, bases, steps, seen', fuel - 1);
              if a.Answers? { CombineMeaning(a.results); }
            }
          }
      }
    }
  }

  lemma MissField(w: World, file: string, field: Field, steps: seq<Step>, seen: Seen, fuel: nat)
    requires field.Property? && steps != []
    ensures var a := LookupField(w, file, field, steps, seen, fuel); a.Answer? && a.presence == Missing ==> !a.cut
    decreases fuel, 1, 0
  {
    if |steps| > 1 && field.ty.Some? { MissTy(w, file, field.ty.value, steps[1..], seen, fuel); }
  }

  lemma {:induction false} MissBases(w: World, file: string, bases: seq<Option<string>>, steps: seq<Step>, seen: Seen,
                                     fuel: nat)
    ensures var a := LookupBases(w, file, bases, steps, seen, fuel);
            a.Answers? && (forall k :: 0 <= k < |a.results| ==> a.results[k] == Missing) ==> !a.cut
    decreases fuel, 1, |bases|
  {
    if bases != [] {
      var d := if bases[0].None? then None else DeclFor(w, file, bases[0].value);
      if d.Some? { MissDecl(w, d.value, steps, seen, fuel); }
      var first := if d.None? then Answer(Unknown, seen, false) else LookupDecl(w, d.value, steps, seen, fuel);
      if first.Answer? {
        MissBases(w, file, bases[1..], steps, first.seen, fuel);
        var rest := LookupBases(w, file, bases[1..], steps, first.seen, fuel);
        if rest.Answers? { FirstAndRest(first.presence, rest.results); }
      }
    }
  }

  lemma FirstAndRest(first: Presence, rest: seq<Presence>)
    ensures var all := [first] + rest;
            (forall k :: 0 <= k < |all| ==> all[k] == Missing) <==>
              first == Missing && forall k :: 0 <= k < |rest| ==> rest[k] == Missing
  {
    var all := [first] + rest;
    assert all[0] == first && forall k :: 0 <= k < |rest| ==> all[k + 1] == rest[k];
  }

  lemma {:induction false} MissEach(w: World, file: string, ts: seq<Ty>, steps: seq<Step>, seen: Seen, fuel: nat)
    ensures var a := LookupEach(w, file, ts, steps, seen, fuel);
            a.Answers? && (forall k :: 0 <= k < |a.results| ==> a.results[k] == Missing) ==> !a.cut
    decreases fuel, 1, |ts|
  {
    if ts != [] {
      MissTy(w, file, ts[0], steps, seen, fuel);
      var first := LookupTy(w, file, ts[0], steps, seen, fuel);
      if first.Answer? {
        MissEach(w, file, ts[1..], steps, first.seen, fuel);
        var rest := LookupEach(w, file, ts[1..], steps, first.seen, fuel);
        if rest.Answers? { FirstAndRest(first.presence, rest.results); }
      }
    }
  }

  lemma {:induction false} MissTy(w: World, file: string, t: Ty, steps: seq<Step>, seen: Seen, fuel: nat)
    ensures var a := LookupTy(w, file, t, steps, seen, fuel); a.Answer? && a.presence == Missing ==> !a.cut
    decreases fuel, 0, 0
  {
    hide LookupTy, Next, NextDecl, NextField;
    if fuel == 0 {
      NoFuelNoAnswer(w, file, t, steps, seen);
    } else if steps == [] {
      LookupEnds(w, file, t, steps, seen, fuel - 1);
    } else if Next(t, steps).Some? {
      LookupNext(w, file, t, steps, seen, fuel - 1);
      MissTy(w, file, Next(t, steps).value.0, Next(t, steps).value.1, seen, fuel - 1);
    } else if NextDecl(w, file, t).Some? {
      LookupNextDecl(w, file, t, steps, seen, fuel - 1);
      MissDecl(w, NextDecl(w, file, t).value, steps, seen, fuel - 1);
    } else if NextField(t, steps).Some? {
      LookupNextField(w, file, t, steps, seen, fuel - 1);
      MissField(w, file, NextField(t, steps).value, steps, seen, fuel - 1);
    } else if t.Intersection? || t.Union? {
      LookupParts(w, file, t, t.parts, steps, seen, fuel - 1);
      MissEach(w, file, t.parts, steps, seen, fuel - 1);
      var each := LookupEach(w, file, t.parts, steps, seen, fuel - 1);
      if each.Answers? { CombineMeaning(each.results); }
    } else {
      LookupEnds(w, file, t, steps, seen, fuel - 1);
    }
  }

  /** What the catalog reports: "missing" is the answer if and only if the type cannot have the path and
      no visit repeats on it. A repeated visit, recursive or not, silences every miss. */
  lemma MissingExact(w: World, d: string, steps: seq<Step>, fuel: nat)
    requires d in w.decls && UnionsNonEmpty(w) && LookupDecl(w, d, steps, {}, fuel).Answer?
    ensures LookupDecl(w, d, steps, {}, fuel).presence == Missing <==>
            !MayHave(w, d, steps) && NeverRepeats(w, d, steps)
  {
    CutIffRepeats(w, d, steps, fuel);
    MissDecl(w, d, steps, {}, fuel);
    LookupMeaning(w, d, steps, fuel);
  }

  // ----- exactness, for every path at once -----

  /** Some walk of references from the declarations that t refers to ends at e, and the path has grown by
      then. */
  ghost predicate Chain(w: World, file: string, t: Ty, e: string, growth: int) {
    exists first, g, hops :: Refers(w, file, t, first, g) && Follows(w, first, hops, e) && g + Growth(hops) == growth
  }

  ghost predicate Follows(w: World, d: string, hops: seq<Hop>, e: string) {
    d in w.decls && Walk(w, d, hops) && End(d, hops) == e
  }

  ghost predicate Meets(w: World, file: string, t: Ty, e: string) {
    exists growth :: Chain(w, file, t, e, growth)
  }

  ghost predicate BaseMeets(w: World, file: string, base: Option<string>, e: string) {
    base.Some? && DeclFor(w, file, base.value).Some? &&
      exists hops :: Follows(w, DeclFor(w, file, base.value).value, hops, e)
  }

  /** Wherever the walk forks below t, no two branches lead to one declaration. */
  ghost predicate ForksApart(w: World, file: string, t: Ty) {
    match t
    case Literal(members) => MembersForkApart(w, file, members)
    case Parenthesized(inner) => ForksApart(w, file, inner)
    case Intersection(parts) => PartsApart(w, file, parts) &&
      forall i :: 0 <= i < |parts| ==> ForksApart(w, file, parts[i])
    case Union(parts) => PartsApart(w, file, parts) && forall i :: 0 <= i < |parts| ==> ForksApart(w, file, parts[i])
    case ArrayOf(element) => ForksApart(w, file, element)
    case Operator(operand) => ForksApart(w, file, operand)
    case Indexed(target, _) => ForksApart(w, file, target)
    case Reference(_, _, args) => args != [] ==> ForksApart(w, file, args[0])
    case Opaque => true
  }

  ghost predicate MembersForkApart(w: World, file: string, members: seq<Field>) {
    forall i :: 0 <= i < |members| && members[i].Property? && members[i].ty.Some? ==>
      ForksApart(w, file, members[i].ty.value)
  }

  ghost predicate PartsApart(w: World, file: string, parts: seq<Ty>) {
    forall i, j, e :: 0 <= i < j < |parts| ==> !Meets(w, file, parts[i], e) || !Meets(w, file, parts[j], e)
  }

  ghost predicate BasesApart(w: World, file: string, bases: seq<Option<string>>) {
    forall i, j, e :: 0 <= i < j < |bases| ==> !BaseMeets(w, file, bases[i], e) || !BaseMeets(w, file, bases[j], e)
  }

  ghost predicate DeclForksApart(w: World, d: string)
    requires d in w.decls
  {
    match w.decls[d].decl
    case Enum => true
    case Alias(ty) => ForksApart(w, w.decls[d].file, ty)
    case Interface(members, bases) =>
      MembersForkApart(w, w.decls[d].file, members) && BasesApart(w, w.decls[d].file, bases)
  }

  ghost predicate Around(w: World, d: string, hops: seq<Hop>) {
    hops != [] && Walk(w, d, hops) && End(d, hops) == d
  }

  /** Every cycle of references that d leads into takes more steps than it puts back. */
  ghost predicate CyclesShrink(w: World, d: string) {
    forall there, around :: Walk(w, d, there) && Around(w, End(d, there), around) ==> Growth(around) < 0
  }

  /** A condition on the declarations alone: every cycle takes a step, and branches that the walk takes
      for one and the same path lead to different declarations. Different members may share types, and
      types may be recursive. */
  ghost predicate Unshared(w: World, d: string) {
    CyclesShrink(w, d) && forall e :: Reaches(w, d, e) && e in w.decls ==> DeclForksApart(w, e)
  }

  // ----- visits are chains of references -----

  ghost predicate TyTraced(w: World, file: string, t: Ty, visits: seq<Visit>, length: nat) {
    Distinct(visits) && forall v :: v in visits ==> Chain(w, file, t, v.0, v.1 - length)
  }

  ghost predicate DeclTraced(w: World, d: string, visits: seq<Visit>, length: nat) {
    Distinct(visits) && forall v :: v in visits ==>
      exists hops :: Follows(w, d, hops, v.0) && Growth(hops) == v.1 - length
  }

  /** All that t refers to can be reached from the root. */
  ghost predicate Inside(w: World, root: string, file: string, t: Ty) {
    forall e, growth :: Refers(w, file, t, e, growth) && e in w.decls ==> Reaches(w, root, e)
  }

  lemma PartTraced(w: World, file: string, t: Ty, part: Ty, visits: seq<Visit>, length: nat, path: nat)
    requires TyTraced(w, file, part, visits, path)
    requires forall e, growth :: Refers(w, file, part, e, growth) ==> Refers(w, file, t, e, growth + path - length)
    ensures TyTraced(w, file, t, visits, length)
  {
    hide Refers, Follows;
    forall v | v in visits ensures Chain(w, file, t, v.0, v.1 - length) {
      var first, g, hops :| Refers(w, file, part, first, g) && Follows(w, first, hops, v.0) &&
          g + Growth(hops) == v.1 - path;
      assert Refers(w, file, t, first, g + path - length);
    }
  }

  lemma PartInside(w: World, root: string, file: string, t: Ty, part: Ty, change: int)
    requires Inside(w, root, file, t)
    requires forall e, growth :: Refers(w, file, part, e, growth) ==> Refers(w, file, t, e, growth + change)
    ensures Inside(w, root, file, part)
  {
    hide Refers, Reaches;
    forall e, growth | Refers(w, file, part, e, growth) && e in w.decls ensures Reaches(w, root, e) {
      assert Refers(w, file, t, e, growth + change);
    }
  }

  /** What a type refers to through the type that the walk enters next. */
  lemma NextRefers(w: World, file: string, t: Ty, steps: seq<Step>, e: string, growth: int)
    requires steps != [] && Next(t, steps).Some? && Refers(w, file, Next(t, steps).value.0, e, growth)
    ensures Refers(w, file, t, e, growth + |Next(t, steps).value.1| - |steps|)
  {
  }

  lemma NextForksApart(w: World, file: string, t: Ty, steps: seq<Step>)
    requires steps != [] && Next(t, steps).Some? && ForksApart(w, file, t)
    ensures ForksApart(w, file, Next(t, steps).value.0)
  {
    hide PartsApart, MembersForkApart;
  }

  lemma FieldRefers(w: World, file: string, t: Ty, steps: seq<Step>, e: string, growth: int)
    requires steps != [] && NextField(t, steps).Some? && NextField(t, steps).value.ty.Some?
    requires Refers(w, file, NextField(t, steps).value.ty.value, e, growth)
    ensures Refers(w, file, t, e, growth - 1)
  {
    assert NextField(t, steps).value == t.members[FieldIndex(t.members, steps[0].name)];
    assert MembersRefer(w, file, t.members, e, (growth - 1) + 1);
  }

  lemma FieldForksApart(w: World, file: string, t: Ty, steps: seq<Step>)
    requires steps != [] && NextField(t, steps).Some? && NextField(t, steps).value.ty.Some? && ForksApart(w, file, t)
    ensures ForksApart(w, file, NextField(t, steps).value.ty.value)
  {
    hide PartsApart;
    assert MembersForkApart(w, file, t.members);
    MemberForksApart(w, file, t.members, FieldIndex(t.members, steps[0].name));
  }

  lemma MemberForksApart(w: World, file: string, members: seq<Field>, i: nat)
    requires i < |members| && members[i].Property? && members[i].ty.Some? && MembersForkApart(w, file, members)
    ensures ForksApart(w, file, members[i].ty.value)
  {
    hide ForksApart;
  }

  lemma {:induction false} TraceTy(w: World, root: string, file: string, t: Ty, steps: seq<Step>, fuel: nat)
    requires Unshared(w, root) && Inside(w, root, file, t) && ForksApart(w, file, t)
    ensures TyTraced(w, file, t, TyVisits(w, file, t, steps, fuel), |steps|)
    decreases fuel, 0, 0
  {
    hide Unshared, Inside, ForksApart, Refers, TyTraced, DeclTraced, Next, NextDecl, NextField;
    TracedNothing(w, file, t, |steps|);
    if fuel > 0 && steps != [] {
      if Next(t, steps).Some? {
        var (part, path) := Next(t, steps).value;
        forall e, growth | Refers(w, file, part, e, growth) ensures Refers(w, file, t, e, growth + |path| - |steps|) {
          NextRefers(w, file, t, steps, e, growth);
        }
        NextForksApart(w, file, t, steps);
        PartInside(w, root, file, t, part, |path| - |steps|);
        TraceTy(w, root, file, part, path, fuel - 1);
        PartTraced(w, file, t, part, TyVisits(w, file, part, path, fuel - 1), |steps|, |path|);
      } else if NextDecl(w, file, t).Some? {
        var d := NextDecl(w, file, t).value;
        NextDeclInside(w, root, file, t);
        TraceDecl(w, root, d, steps, fuel - 1);
        NextDeclTraced(w, file, t, DeclVisits(w, d, steps, fuel - 1), |steps|);
      } else if NextField(t, steps).Some? {
        var f := NextField(t, steps).value;
        if |steps| > 1 && f.ty.Some? {
          forall e, growth | Refers(w, file, f.ty.value, e, growth) ensures Refers(w, file, t, e, growth - 1) {
            FieldRefers(w, file, t, steps, e, growth);
          }
          FieldForksApart(w, file, t, steps);
          PartInside(w, root, file, t, f.ty.value, -1);
          TraceTy(w, root, file, f.ty.value, steps[1..], fuel - 1);
          PartTraced(w, file, t, f.ty.value, TyVisits(w, file, f.ty.value, steps[1..], fuel - 1), |steps|, |steps| - 1);
        }
      } else if t.Intersection? || t.Union? {
        TraceParts(w, root, file, t, t.parts, steps, fuel);
      }
    }
  }

  lemma TracedNothing(w: World, file: string, t: Ty, length: nat)
    ensures TyTraced(w, file, t, [], length)
  {
  }

  lemma NextDeclInside(w: World, root: string, file: string, t: Ty)
    requires Inside(w, root, file, t) && NextDecl(w, file, t).Some?
    ensures Reaches(w, root, NextDecl(w, file, t).value)
  {
    assert Refers(w, file, t, NextDecl(w, file, t).value, 0);
  }

  lemma NextDeclTraced(w: World, file: string, t: Ty, visits: seq<Visit>, length: nat)
    requires NextDecl(w, file, t).Some? && DeclTraced(w, NextDecl(w, file, t).value, visits, length)
    ensures TyTraced(w, file, t, visits, length)
  {
    var d := NextDecl(w, file, t).value;
    hide Follows;
    assert Refers(w, file, t, d, 0);
    forall v | v in visits ensures Chain(w, file, t, v.0, v.1 - length) {
      var hops :| Follows(w, d, hops, v.0) && Growth(hops) == v.1 - length;
    }
  }

  ghost predicate EachTraced(w: World, file: string, ts: seq<Ty>, visits: seq<Visit>, length: nat) {
    Distinct(visits) && forall v :: v in visits ==>
      exists i :: 0 <= i < |ts| && Chain(w, file, ts[i], v.0, v.1 - length)
  }

  ghost predicate EachInside(w: World, root: string, file: string, ts: seq<Ty>) {
    PartsApart(w, file, ts) && forall i :: 0 <= i < |ts| ==> Inside(w, root, file, ts[i]) && ForksApart(w, file, ts[i])
  }

  lemma TraceParts(w: World, root: string, file: string, t: Ty, parts: seq<Ty>, steps: seq<Step>, fuel: nat)
    requires Unshared(w, root) && Inside(w, root, file, t) && ForksApart(w, file, t) &&
             (t == Intersection(parts) || t == Union(parts))
    requires fuel > 0 && steps != []
    ensures TyTraced(w, file, t, EachVisits(w, file, parts, steps, fuel - 1), |steps|)
    decreases fuel - 1, 2, 0
  {
    hide Unshared, TyTraced, EachTraced;
    assert EachInside(w, root, file, parts) by {
      forall i | 0 <= i < |parts| ensures Inside(w, root, file, parts[i]) { PartInside(w, root, file, t, parts[i], 0); }
    }
    TraceEach(w, root, file, parts, steps, fuel - 1);
    PartsTraced(w, file, t, parts, EachVisits(w, file, parts, steps, fuel - 1), |steps|);
  }

  lemma PartsTraced(w: World, file: string, t: Ty, parts: seq<Ty>, visits: seq<Visit>, length: nat)
    requires EachTraced(w, file, parts, visits, length) && (t == Intersection(parts) || t == Union(parts))
    ensures TyTraced(w, file, t, visits, length)
  {
    hide Follows;
    forall v | v in visits ensures Chain(w, file, t, v.0, v.1 - length) {
      var i :| 0 <= i < |parts| && Chain(w, file, parts[i], v.0, v.1 - length);
      var first, g, hops :| Refers(w, file, parts[i], first, g) && Follows(w, first, hops, v.0) &&
          g + Growth(hops) == v.1 - length;
      assert Refers(w, file, t, first, g);
    }
  }

  lemma {:induction false} TraceEach(w: World, root: string, file: string, ts: seq<Ty>, steps: seq<Step>, fuel: nat)
    requires Unshared(w, root) && EachInside(w, root, file, ts)
    ensures EachTraced(w, file, ts, EachVisits(w, file, ts, steps, fuel), |steps|)
    decreases fuel, 1, |ts|
  {
    hide Unshared, TyTraced, EachTraced;
    if ts == [] {
      EachNothing(w, file, |steps|);
    } else {
      RestInside(w, root, file, ts);
      TraceTy(w, root, file, ts[0], steps, fuel);
      TraceEach(w, root, file, ts[1..], steps, fuel);
      hide EachInside;
      EachJoins(w, file, ts, TyVisits(w, file, ts[0], steps, fuel), EachVisits(w, file, ts[1..], steps, fuel), |steps|);
    }
  }

  lemma EachNothing(w: World, file: string, length: nat)
    ensures EachTraced(w, file, [], [], length)
  {
  }

  lemma RestInside(w: World, root: string, file: string, ts: seq<Ty>)
    requires EachInside(w, root, file, ts) && ts != []
    ensures EachInside(w, root, file, ts[1..]) && PartsApart(w, file, ts)
  {
    hide Meets, Inside, ForksApart;
    forall i, j, e | 0 <= i < j < |ts[1..]| ensures !Meets(w, file, ts[1..][i], e) || !Meets(w, file, ts[1..][j], e) {
      assert !Meets(w, file, ts[i + 1], e) || !Meets(w, file, ts[j + 1], e);
    }
  }

  lemma EachJoins(w: World, file: string, ts: seq<Ty>, first: seq<Visit>, rest: seq<Visit>, length: nat)
    requires ts != [] && PartsApart(w, file, ts)
    requires TyTraced(w, file, ts[0], first, length) && EachTraced(w, file, ts[1..], rest, length)
    ensures EachTraced(w, file, ts, first + rest, length)
  {
    hide Chain;
    forall v | v in rest ensures exists i :: 1 <= i < |ts| && Chain(w, file, ts[i], v.0, v.1 - length) {
      var i :| 0 <= i < |ts[1..]| && Chain(w, file, ts[1..][i], v.0, v.1 - length);
      assert Chain(w, file, ts[i + 1], v.0, v.1 - length);
    }
    forall v | v in rest ensures !Meets(w, file, ts[0], v.0) {
      var i :| 1 <= i < |ts| && Chain(w, file, ts[i], v.0, v.1 - length);
      assert Meets(w, file, ts[i], v.0);
    }
    assert forall v :: v in first ==> Meets(w, file, ts[0], v.0);
    DistinctConcat(first, rest);
  }

  // ----- from a declaration -----

  /** A nonempty walk of references from d leads to every visit. */
  ghost predicate BodyTraced(w: World, d: string, visits: seq<Visit>, length: nat) {
    Distinct(visits) && forall v :: v in visits ==>
      exists hops :: hops != [] && Follows(w, d, hops, v.0) && Growth(hops) == v.1 - length
  }

  lemma FollowsFirst(w: World, d: string, first: string, growth: int, hops: seq<Hop>, e: string)
    requires DeclRefers(w, d, first, growth) && Follows(w, first, hops, e)
    ensures var all := [Hop(first, growth)] + hops; Follows(w, d, all, e) && Growth(all) == growth + Growth(hops)
  {
    var hop := [Hop(first, growth)];
    assert Walk(w, first, hop[1..]);
    WalkConcat(w, d, hop, hops);
    assert Growth(hop) == growth + Growth(hop[1..]);
  }

  lemma AliasTraced(w: World, d: string, visits: seq<Visit>, length: nat)
    requires d in w.decls && w.decls[d].decl.Alias? && TyTraced(w, w.decls[d].file, w.decls[d].decl.ty, visits, length)
    ensures BodyTraced(w, d, visits, length)
  {
    hide Follows, Refers;
    var file, ty := w.decls[d].file, w.decls[d].decl.ty;
    forall v | v in visits
      ensures exists hops :: hops != [] && Follows(w, d, hops, v.0) && Growth(hops) == v.1 - length
    {
      var first, g, hops :| Refers(w, file, ty, first, g) && Follows(w, first, hops, v.0) &&
          g + Growth(hops) == v.1 - length;
      FollowsKnown(w, first, hops, v.0);
      FollowsFirst(w, d, first, g, hops, v.0);
    }
  }

  lemma FollowsKnown(w: World, d: string, hops: seq<Hop>, e: string)
    requires Follows(w, d, hops, e)
    ensures d in w.decls
  {
  }

  lemma MemberTraced(w: World, d: string, i: nat, visits: seq<Visit>, length: nat)
    requires d in w.decls && w.decls[d].decl.Interface? && i < |w.decls[d].decl.members| && length > 0
    requires w.decls[d].decl.members[i].Property? && w.decls[d].decl.members[i].ty.Some?
    requires TyTraced(w, w.decls[d].file, w.decls[d].decl.members[i].ty.value, visits, length - 1)
    ensures BodyTraced(w, d, visits, length)
  {
    hide Follows, Refers;
    var file, members := w.decls[d].file, w.decls[d].decl.members;
    forall v | v in visits
      ensures exists hops :: hops != [] && Follows(w, d, hops, v.0) && Growth(hops) == v.1 - length
    {
      var first, g, hops :| Refers(w, file, members[i].ty.value, first, g) && Follows(w, first, hops, v.0) &&
          g + Growth(hops) == v.1 - (length - 1);
      FollowsKnown(w, first, hops, v.0);
      assert MembersRefer(w, file, members, first, (g - 1) + 1);
      FollowsFirst(w, d, first, g - 1, hops, v.0);
    }
  }

  lemma {:induction false} TraceBases(w: World, root: string, d: string, bases: seq<Option<string>>, steps: seq<Step>,
                                      fuel: nat)
    requires Unshared(w, root) && Reaches(w, root, d) && d in w.decls && w.decls[d].decl.Interface?
    requires (forall b :: b in bases ==> b in w.decls[d].decl.bases) && BasesApart(w, w.decls[d].file, bases)
    ensures var file, visits := w.decls[d].file, BasesVisits(w, w.decls[d].file, bases, steps, fuel);
            BodyTraced(w, d, visits, |steps|) &&
              forall v :: v in visits ==> exists i :: 0 <= i < |bases| && BaseMeets(w, file, bases[i], v.0)
    decreases fuel, 1, |bases| + 1
  {
    hide Unshared, BodyTraced, DeclTraced, BaseMeets, Reaches, DeclRefers;
    var file := w.decls[d].file;
    if bases == [] {
      BodyNothing(w, d, |steps|);
    } else {
      RestApart(w, file, bases);
      TraceBases(w, root, d, bases[1..], steps, fuel);
      var e := if bases[0].None? then None else DeclFor(w, file, bases[0].value);
      if e.Some? {
        assert bases[0] in w.decls[d].decl.bases;
        BaseRefers(w, root, d, bases[0].value);
        TraceDecl(w, root, e.value, steps, fuel);
        BaseTraced(w, d, bases[0].value, DeclVisits(w, e.value, steps, fuel), |steps|);
      } else {
        BodyNothing(w, d, |steps|);
      }
      BasesJoin(w, d, bases, BaseVisits(w, file, bases[0], steps, fuel), BasesVisits(w, file, bases[1..], steps, fuel),
        |steps|);
    }
  }

  lemma BodyNothing(w: World, d: string, length: nat)
    ensures BodyTraced(w, d, [], length)
  {
  }

  lemma RestApart(w: World, file: string, bases: seq<Option<string>>)
    requires BasesApart(w, file, bases) && bases != []
    ensures BasesApart(w, file, bases[1..])
  {
    hide BaseMeets;
    forall i, j, e | 0 <= i < j < |bases[1..]|
      ensures !BaseMeets(w, file, bases[1..][i], e) || !BaseMeets(w, file, bases[1..][j], e)
    {
      assert !BaseMeets(w, file, bases[i + 1], e) || !BaseMeets(w, file, bases[j + 1], e);
    }
  }

  lemma BaseRefers(w: World, root: string, d: string, base: string)
    requires Reaches(w, root, d) && d in w.decls && w.decls[d].decl.Interface? && Some(base) in w.decls[d].decl.bases
    requires DeclFor(w, w.decls[d].file, base).Some?
    ensures var e := DeclFor(w, w.decls[d].file, base).value; DeclRefers(w, d, e, 0) && Reaches(w, root, e)
  {
    var e, bases := DeclFor(w, w.decls[d].file, base).value, w.decls[d].decl.bases;
    var i :| 0 <= i < |bases| && bases[i] == Some(base);
    var there :| Walk(w, root, there) && End(root, there) == d;
    assert Walk(w, d, [Hop(e, 0)]);
    WalkConcat(w, root, there, [Hop(e, 0)]);
  }

  lemma BaseTraced(w: World, d: string, base: string, visits: seq<Visit>, length: nat)
    requires d in w.decls && DeclFor(w, w.decls[d].file, base).Some? &&
             DeclRefers(w, d, DeclFor(w, w.decls[d].file, base).value, 0)
    requires DeclTraced(w, DeclFor(w, w.decls[d].file, base).value, visits, length)
    ensures BodyTraced(w, d, visits, length)
    ensures forall v :: v in visits ==> BaseMeets(w, w.decls[d].file, Some(base), v.0)
  {
    hide Follows, DeclRefers;
    var e := DeclFor(w, w.decls[d].file, base).value;
    forall v | v in visits
      ensures exists hops :: hops != [] && Follows(w, d, hops, v.0) && Growth(hops) == v.1 - length
    {
      var hops :| Follows(w, e, hops, v.0) && Growth(hops) == v.1 - length;
      FollowsFirst(w, d, e, 0, hops, v.0);
    }
  }

  lemma BasesJoin(w: World, d: string, bases: seq<Option<string>>, first: seq<Visit>, rest: seq<Visit>, length: nat)
    requires d in w.decls && bases != [] && BasesApart(w, w.decls[d].file, bases)
    requires BodyTraced(w, d, first, length) && forall v :: v in first ==> BaseMeets(w, w.decls[d].file, bases[0], v.0)
    requires BodyTraced(w, d, rest, length)
    requires forall v :: v in rest ==>
             exists i :: 0 <= i < |bases[1..]| && BaseMeets(w, w.decls[d].file, bases[1..][i], v.0)
    ensures BodyTraced(w, d, first + rest, length)
    ensures forall v :: v in first + rest ==>
            exists i :: 0 <= i < |bases| && BaseMeets(w, w.decls[d].file, bases[i], v.0)
  {
    hide BaseMeets, Follows;
    var file := w.decls[d].file;
    forall v | v in rest ensures exists i :: 1 <= i < |bases| && BaseMeets(w, file, bases[i], v.0) {
      var i :| 0 <= i < |bases[1..]| && BaseMeets(w, file, bases[1..][i], v.0);
      assert BaseMeets(w, file, bases[i + 1], v.0);
    }
    forall v | v in rest ensures !BaseMeets(w, file, bases[0], v.0) {
      var i :| 1 <= i < |bases| && BaseMeets(w, file, bases[i], v.0);
    }
    DistinctConcat(first, rest);
  }

  /** A cycle takes a step, so a declaration is not visited again with as many steps left. */
  lemma OwnVisit(w: World, root: string, d: string, body: seq<Visit>, length: nat)
    requires Unshared(w, root) && Reaches(w, root, d) && d in w.decls && BodyTraced(w, d, body, length)
    ensures DeclTraced(w, d, [(d, length)] + body, length)
  {
    var own: Visit := (d, length);
    var there :| Walk(w, root, there) && End(root, there) == d;
    hide DeclForksApart, DeclRefers;
    forall v | v in body ensures v != own {
      var hops :| hops != [] && Follows(w, d, hops, v.0) && Growth(hops) == v.1 - length;
      assert v.0 == d ==> Around(w, End(root, there), hops);
    }
    assert Follows(w, d, [], d) && Growth([]) == 0;
    DistinctConcat([own], body);
  }

  lemma {:induction false} TraceDecl(w: World, root: string, d: string, steps: seq<Step>, fuel: nat)
    requires Unshared(w, root) && Reaches(w, root, d) && d in w.decls
    ensures DeclTraced(w, d, DeclVisits(w, d, steps, fuel), |steps|)
    decreases fuel, 0, 0
  {
    hide Unshared, Reaches, BodyTraced, DeclTraced;
    if fuel == 0 || steps == [] || w.decls[d].decl.Enum? {
      DeclNothing(w, d, |steps|);
    } else {
      TraceBody(w, root, d, steps, fuel);
      OwnVisit(w, root, d, BodyVisits(w, d, steps, fuel - 1), |steps|);
    }
  }

  lemma DeclNothing(w: World, d: string, length: nat)
    ensures DeclTraced(w, d, [], length)
  {
  }

  lemma {:induction false} TraceBody(w: World, root: string, d: string, steps: seq<Step>, fuel: nat)
    requires Unshared(w, root) && Reaches(w, root, d) && d in w.decls && fuel > 0 && steps != []
    ensures BodyTraced(w, d, BodyVisits(w, d, steps, fuel - 1), |steps|)
    decreases fuel - 1, 2, 0
  {
    ForksHere(w, root, d);
    hide Unshared, Reaches, BodyTraced, TyTraced, Inside, ForksApart, BasesApart;
    BodyNothing(w, d, |steps|);
    var file := w.decls[d].file;
    match w.decls[d].decl {
      case Enum =>
      case Alias(ty) =>
        AliasInside(w, root, d);
        TraceTy(w, root, file, ty, steps, fuel - 1);
        AliasTraced(w, d, TyVisits(w, file, ty, steps, fuel - 1), |steps|);
      case Interface(members, bases) =>
        if steps[0].Member? {
          var i := FieldIndex(members, steps[0].name);
          if i == -1 {
            TraceBases(w, root, d, bases, steps, fuel - 1);
          } else if |steps| > 1 && members[i].ty.Some? {
            MemberInside(w, root, d, i);
            TraceTy(w, root, file, members[i].ty.value, steps[1..], fuel - 1);
            MemberTraced(w, d, i, TyVisits(w, file, members[i].ty.value, steps[1..], fuel - 1), |steps|);
          }
        }
    }
  }

  lemma ForksHere(w: World, root: string, d: string)
    requires Unshared(w, root) && Reaches(w, root, d) && d in w.decls
    ensures DeclForksApart(w, d)
  {
  }

  lemma AliasInside(w: World, root: string, d: string)
    requires Reaches(w, root, d) && d in w.decls && w.decls[d].decl.Alias?
    ensures Inside(w, root, w.decls[d].file, w.decls[d].decl.ty)
  {
    forall e, growth | Refers(w, w.decls[d].file, w.decls[d].decl.ty, e, growth) && e in w.decls
      ensures Reaches(w, root, e)
    {
      assert DeclRefers(w, d, e, growth);
      ReachesNext(w, root, d, e, growth);
    }
  }

  lemma MemberInside(w: World, root: string, d: string, i: nat)
    requires Reaches(w, root, d) && d in w.decls && w.decls[d].decl.Interface? && i < |w.decls[d].decl.members|
    requires w.decls[d].decl.members[i].Property? && w.decls[d].decl.members[i].ty.Some?
    ensures Inside(w, root, w.decls[d].file, w.decls[d].decl.members[i].ty.value)
  {
    hide Refers;
    var file, members := w.decls[d].file, w.decls[d].decl.members;
    forall e, growth | Refers(w, file, members[i].ty.value, e, growth) && e in w.decls ensures Reaches(w, root, e) {
      assert MembersRefer(w, file, members, e, (growth - 1) + 1);
      ReachesNext(w, root, d, e, growth - 1);
    }
  }

  lemma ReachesNext(w: World, root: string, d: string, e: string, growth: int)
    requires Reaches(w, root, d) && DeclRefers(w, d, e, growth)
    ensures Reaches(w, root, e)
  {
    var there :| Walk(w, root, there) && End(root, there) == d;
    assert Walk(w, d, [Hop(e, growth)]);
    WalkConcat(w, root, there, [Hop(e, growth)]);
  }

  /** Where branches share no declaration and every cycle takes a step, no visit repeats on any path. */
  lemma UnsharedNeverRepeats(w: World, d: string, steps: seq<Step>)
    requires d in w.decls && Unshared(w, d)
    ensures NeverRepeats(w, d, steps)
  {
    assert Walk(w, d, []) && End(d, []) == d;
    forall fuel: nat ensures Distinct(DeclVisits(w, d, steps, fuel)) { TraceDecl(w, d, d, steps, fuel); }
  }

  /** On such declarations the lookup always answers, and exactly: "found" if and only if the type must
      have the path, "missing" if and only if it cannot have it. */
  lemma UnsharedExact(w: World, d: string, steps: seq<Step>)
    requires d in w.decls && UnionsNonEmpty(w) && Unshared(w, d)
    ensures exists fuel: nat :: LookupDecl(w, d, steps, {}, fuel).Answer?
    ensures forall fuel: nat :: LookupDecl(w, d, steps, {}, fuel).Answer? ==>
              var p := LookupDecl(w, d, steps, {}, fuel).presence;
              (p == Found <==> MustHave(w, d, steps)) && (p == Missing <==> !MayHave(w, d, steps))
  {
    assert NoGrowingCycle(w, d) by {
      forall there, around | Walk(w, d, there) && Walk(w, End(d, there), around) &&
        End(End(d, there), around) == End(d, there)
        ensures Growth(around) <= 0
      {
        assert around != [] ==> Around(w, End(d, there), around);
      }
    }
    LookupReturns(w, d, steps);
    UnsharedNeverRepeats(w, d, steps);
    hide Unshared, NeverRepeats;
    forall fuel: nat | LookupDecl(w, d, steps, {}, fuel).Answer?
      ensures var p := LookupDecl(w, d, steps, {}, fuel).presence;
              (p == Found <==> MustHave(w, d, steps)) && (p == Missing <==> !MayHave(w, d, steps))
    {
      ExactWithoutRepeats(w, d, steps, fuel);
    }
  }

  /** `interface A { m: A }`. */
  const RECURSIVE := World(
    map["A" := Located("f.ts", Interface([Property("m", Some(Reference("A", false, [])))], []))],
    map[("f.ts", "A") := "A"])

  /** A recursive type can meet the condition. */
  lemma RecursiveUnshared()
    ensures DeclRefers(RECURSIVE, "A", "A", -1) && Unshared(RECURSIVE, "A")
  {
    var w, a, members := RECURSIVE, Reference("A", false, []), RECURSIVE.decls["A"].decl.members;
    assert DeclFor(w, "f.ts", "A") == Some("A");
    assert members[0].ty == Some(a) && Refers(w, "f.ts", a, "A", 0);
    assert MembersRefer(w, "f.ts", members, "A", -1 + 1);
    forall there, around | Walk(w, "A", there) && Around(w, End("A", there), around) ensures Growth(around) < 0 {
      RecursiveWalk(End("A", there), around);
    }
    assert ForksApart(w, "f.ts", a);
    assert MembersForkApart(w, "f.ts", members);
    assert BasesApart(w, "f.ts", []);
  }

  lemma {:induction false} RecursiveWalk(d: string, hops: seq<Hop>)
    requires Walk(RECURSIVE, d, hops)
    ensures Growth(hops) == -|hops|
    decreases |hops|
  {
    if hops != [] {
      var members := RECURSIVE.decls["A"].decl.members;
      assert d == "A" && MembersRefer(RECURSIVE, "f.ts", members, hops[0].to, hops[0].growth + 1);
      assert members[0].ty == Some(Reference("A", false, []));
      assert Refers(RECURSIVE, "f.ts", Reference("A", false, []), hops[0].to, hops[0].growth + 1);
      RecursiveWalk(hops[0].to, hops[1..]);
    }
  }

  // ----- what sharing the visited set costs, by example -----

  /** `type X = A | A` over `interface A { m: ... }`. */
  const REPEATED := World(
    map["X" := Located("f.ts", Alias(Union([Reference("A", false, []), Reference("A", false, [])]))),
        "A" := Located("f.ts", Interface([Property("m", None)], []))],
    map[("f.ts", "A") := "A"])

  /** Because sibling branches share the visited set, the second branch of a union over one
      declaration is cut off: the member is declared, yet the answer is "unknown", not "found". */
  lemma SharedGuardLosesFound()
    ensures LookupDecl(REPEATED, "X", [Member("m")], {}, 5).presence == Unknown
    ensures LookupDecl(REPEATED, "X", [Member("m")], {}, 5).cut && MustHave(REPEATED, "X", [Member("m")])
  {
    RepeatedAnswer();
    RepeatedHas();
  }

  lemma RepeatedAnswer()
    ensures LookupDecl(REPEATED, "X", [Member("m")], {}, 5) == Answer(Unknown, {("X", 1), ("A", 1)}, true)
  {
    var w, steps := REPEATED, [Member("m")];
    var a := Reference("A", false, []);
    var s1 := {("X", 1)};
    var s2 := s1 + {("A", 1)};
    RepeatedBranches();
    hide LookupTy;
    assert [a, a][1..] == [a] && [a][1..] == [];
    assert LookupEach(w, "f.ts", [a], steps, s2, 3) == Answers([Unknown], s2, true);
    var each := LookupEach(w, "f.ts", [a, a], steps, s1, 3);
    assert each == Answers([Found, Unknown], s2, true);
    assert Found in each.results && Unknown in each.results;
    RepeatedUnion(each);
  }

  lemma RepeatedBranches()
    ensures var a, s1 := Reference("A", false, []), {("X", 1)};
            var s2 := s1 + {("A", 1)};
            && LookupTy(REPEATED, "f.ts", a, [Member("m")], s1, 3) == Answer(Found, s2, false)
            && LookupTy(REPEATED, "f.ts", a, [Member("m")], s2, 3) == Answer(Unknown, s2, true)
  {
    assert DeclFor(REPEATED, "f.ts", "A") == Some("A");
    assert FieldIndex([Property("m", None)], "m") == 0;
  }

  lemma RepeatedUnion(each: Answers)
    requires var a := Reference("A", false, []);
             each == LookupEach(REPEATED, "f.ts", [a, a], [Member("m")], {("X", 1)}, 3)
             && each == Answers([Found, Unknown], {("X", 1), ("A", 1)}, true)
    ensures LookupDecl(REPEATED, "X", [Member("m")], {}, 5) == Answer(Unknown, {("X", 1), ("A", 1)}, true)
  {
    hide LookupEach;
    assert Found in each.results && Unknown in each.results;
    assert {} + {("X", 1)} == {("X", 1)};
  }

  lemma RepeatedHas()
    ensures MustHave(REPEATED, "X", [Member("m")])
  {
    var w, steps, a := REPEATED, [Member("m")], Reference("A", false, []);
    assert DeclFor(w, "f.ts", "A") == Some("A");
    assert FieldIndex([Property("m", None)], "m") == 0;
    assert TyHas(w, "f.ts", a, steps, false, 2);
    assert TyHas(w, "f.ts", Union([a, a]), steps, false, 3);
    assert DeclHas(w, "X", steps, false, 4);
  }

  /** `interface C extends L, R`, where L and R both extend B: no type is recursive. */
  const DIAMOND := World(
    map["C" := Located("f.ts", Interface([], [Some("L"), Some("R")])),
        "L" := Located("f.ts", Interface([], [Some("B")])),
        "R" := Located("f.ts", Interface([], [Some("B")])),
        "B" := Located("f.ts", Interface([Property("a", None)], []))],
    map[("f.ts", "L") := "L", ("f.ts", "R") := "R", ("f.ts", "B") := "B"])

  /** The second way to B is cut off, so a member that is declared nowhere goes unreported. */
  lemma DiamondHidesMiss()
    ensures var a := LookupDecl(DIAMOND, "C", [Member("nope")], {}, 3); a.Answer? && a.presence == Unknown
    ensures !MayHave(DIAMOND, "C", [Member("nope")])
  {
    hide LookupDecl, DeclHas;
    DiamondAnswer(DIAMOND, [Member("nope")], 2);
    if MayHave(DIAMOND, "C", [Member("nope")]) {
      var n :| DeclHas(DIAMOND, "C", [Member("nope")], true, n);
      DiamondLacks(n);
    }
  }

  lemma DiamondAnswer(w: World, steps: seq<Step>, fuel: nat)
    requires w == DIAMOND && steps == [Member("nope")] && fuel == 2
    ensures var a := LookupDecl(w, "C", steps, {}, fuel + 1); a.Answer? && a.presence == Unknown
  {
    hide LookupDecl, LookupBases;
    var c := {("C", 1)};
    var l := c + {("L", 1)};
    var b := l + {("B", 1)};
    var r := b + {("R", 1)};
    DiamondNames();
    DiamondSide(c, l, b);
    DiamondAgain(b, r);
    var bases := [Some("L"), Some("R")];
    NoBases(w, "f.ts", steps, r, fuel);
    assert bases[1..] == [Some("R")] && bases[1..][1..] == [];
    FirstBase(w, "f.ts", bases[1..], steps, b, fuel, Answer(Unknown, r, true), []);
    FirstBase(w, "f.ts", bases, steps, c, fuel, Answer(Missing, b, false), [Unknown]);
    assert {} + {("C", 1)} == c;
    NoMembers(w, "C", "nope", {}, fuel + 1);
  }

  lemma DiamondNames()
    ensures DeclFor(DIAMOND, "f.ts", "L") == Some("L") && DeclFor(DIAMOND, "f.ts", "R") == Some("R") &&
            DeclFor(DIAMOND, "f.ts", "B") == Some("B")
    ensures FieldIndex([Property("a", None)], "nope") == -1 && FieldIndex([], "nope") == -1
    ensures Combine([Missing]) == Missing && Combine([Unknown]) == Unknown && Combine([Missing, Unknown]) == Unknown
  {
    assert [Property("a", None)][1..] == [];
    assert Unknown in [Unknown] && [Missing, Unknown][1] == Unknown;
  }

  /** An interface without members of its own answers what its bases answer together. */
  lemma NoMembers(w: World, d: string, name: string, seen: Seen, fuel: nat)
    requires d in w.decls && w.decls[d].decl.Interface? && w.decls[d].decl.members == [] && w.decls[d].decl.bases != []
    requires (d, 1) !in seen && fuel > 0
    ensures var a := LookupBases(w, w.decls[d].file, w.decls[d].decl.bases, [Member(name)], seen + {(d, 1)}, fuel - 1);
            a.Answers? ==> LookupDecl(w, d, [Member(name)], seen, fuel) == Answer(Combine(a.results), a.seen, a.cut)
  {
    hide LookupBases, Combine;
  }

  lemma NoBases(w: World, file: string, steps: seq<Step>, seen: Seen, fuel: nat)
    ensures LookupBases(w, file, [], steps, seen, fuel) == Answers([], seen, false)
  {
  }

  lemma FirstBase(w: World, file: string, bases: seq<Option<string>>, steps: seq<Step>, seen: Seen, fuel: nat,
                  first: Answer, rest: seq<Presence>)
    requires bases != [] && bases[0].Some? && DeclFor(w, file, bases[0].value).Some? && first.Answer?
    requires LookupDecl(w, DeclFor(w, file, bases[0].value).value, steps, seen, fuel) == first
    requires var a := LookupBases(w, file, bases[1..], steps, first.seen, fuel); a.Answers? && a.results == rest
    ensures var a := LookupBases(w, file, bases[1..], steps, first.seen, fuel);
            LookupBases(w, file, bases, steps, seen, fuel) ==
              Answers([first.presence] + rest, a.seen, first.cut || a.cut)
  {
    hide LookupDecl;
  }

  /** The first way: L finds nothing in B. */
  lemma DiamondSide(c: Seen, l: Seen, b: Seen)
    requires l == c + {("L", 1)} && b == l + {("B", 1)} && ("L", 1) !in c && ("B", 1) !in l
    ensures LookupDecl(DIAMOND, "L", [Member("nope")], c, 2) == Answer(Missing, b, false)
  {
    DiamondNames();
    var w, steps := DIAMOND, [Member("nope")];
    assert LookupDecl(w, "B", steps, l, 1) == Answer(Missing, b, false);
    hide LookupDecl, LookupBases;
    assert [Some("B")][1..] == [];
    NoBases(w, "f.ts", steps, b, 1);
    FirstBase(w, "f.ts", [Some("B")], steps, l, 1, Answer(Missing, b, false), []);
    NoMembers(w, "L", "nope", c, 2);
  }

  /** The second way: B has been met. */
  lemma DiamondAgain(b: Seen, r: Seen)
    requires ("R", 1) !in b && ("B", 1) in b && r == b + {("R", 1)}
    ensures LookupDecl(DIAMOND, "R", [Member("nope")], b, 2) == Answer(Unknown, r, true)
  {
    DiamondNames();
    var w, steps := DIAMOND, [Member("nope")];
    assert LookupDecl(w, "B", steps, r, 1) == Answer(Unknown, r, true);
    hide LookupDecl, LookupBases;
    assert [Some("B")][1..] == [];
    NoBases(w, "f.ts", steps, r, 1);
    FirstBase(w, "f.ts", [Some("B")], steps, r, 1, Answer(Unknown, r, true), []);
    NoMembers(w, "R", "nope", b, 2);
  }

  lemma DiamondLacks(n: nat)
    ensures !DeclHas(DIAMOND, "C", [Member("nope")], true, n)
  {
    DiamondNames();
    var w, steps := DIAMOND, [Member("nope")];
    assert n >= 3 ==> !DeclHas(w, "B", steps, true, n - 2);
    assert n >= 2 ==> !BaseHas(w, "f.ts", Some("B"), steps, true, n - 2);
    assert n >= 2 ==> !DeclHas(w, "L", steps, true, n - 1) && !DeclHas(w, "R", steps, true, n - 1);
    assert n >= 1 ==> !BaseHas(w, "f.ts", Some("L"), steps, true, n - 1);
    assert n >= 1 ==> !BaseHas(w, "f.ts", Some("R"), steps, true, n - 1);
  }
}
