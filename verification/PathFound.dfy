/** Where the guard of `lookupPath` never costs a "found". Without unions one branch that has the member
    is enough, and without indexed accesses a declaration that is met again with as many steps left is
    asked for the same path; so a walk cut off by the guard still finds all there is to find. */
module PathFound {
  import opened Basics
  import opened PathLookup
  import opened PathVisits
  import opened PathTermination
  import opened PathExactness

  /** There is no union in the type, and no indexed access that the walk follows. */
  predicate Straight(t: Ty) {
    match t
    case Literal(members) => forall f :: f in members && f.Property? && f.ty.Some? ==> Straight(f.ty.value)
    case Parenthesized(inner) => Straight(inner)
    case Intersection(parts) => forall p :: p in parts ==> Straight(p)
    case Union(_) => false
    case ArrayOf(element) => Straight(element)
    case Operator(operand) => Straight(operand)
    case Indexed(_, index) => index.None?
    case Reference(_, _, args) => args != [] ==> Straight(args[0])
    case Opaque => true
  }

  predicate DeclStraight(decl: Decl) {
    match decl
    case Interface(members, _) => forall f :: f in members && f.Property? && f.ty.Some? ==> Straight(f.ty.value)
    case Alias(ty) => Straight(ty)
    case Enum => true
  }

  /** All declarations that d leads to are of that kind. */
  ghost predicate StraightFrom(w: World, root: string) {
    forall d :: d in w.decls && Reaches(w, root, d) ==> DeclStraight(w.decls[d].decl)
  }

  // ----- what is left of a path -----

  predicate Left(path: seq<Step>, steps: seq<Step>) {
    |steps| <= |path| && steps == path[|path| - |steps|..]
  }

  lemma LeftNext(path: seq<Step>, steps: seq<Step>)
    requires Left(path, steps) && steps != []
    ensures Left(path, steps[1..])
  {
  }

  lemma NextLeft(t: Ty, path: seq<Step>, steps: seq<Step>)
    requires Straight(t) && Left(path, steps) && steps != [] && Next(t, steps).Some?
    ensures Straight(Next(t, steps).value.0) && Left(path, Next(t, steps).value.1)
  {
    LeftNext(path, steps);
  }

  /** By a derivation of at most n steps, the visited declaration does not have what is left of the path. */
  ghost predicate Lacks(w: World, path: seq<Step>, v: Visit, n: nat) {
    v.0 in w.decls && v.1 <= |path| ==> !DeclHas(w, v.0, path[|path| - v.1..], false, n)
  }

  ghost predicate AllLack(w: World, path: seq<Step>, visited: Seen, n: nat) {
    forall v :: v in visited ==> Lacks(w, path, v, n)
  }

  ghost predicate LackBelow(w: World, path: seq<Step>, visited: Seen, n: nat) {
    forall k: nat :: k < n ==> AllLack(w, path, visited, k)
  }

  lemma LackLess(w: World, path: seq<Step>, visited: Seen, n: nat)
    requires LackBelow(w, path, visited, n) && n > 0
    ensures LackBelow(w, path, visited, n - 1) && AllLack(w, path, visited, n - 1)
  {
  }

  // ----- an answer that is not "found" -----

  /** The answer is another one than "found", and what has been visited lies in `visited`. */
  predicate Fails(a: Answer, visited: Seen) {
    a.Answer? && a.presence != Found && a.seen <= visited
  }

  predicate AllFail(a: Answers, visited: Seen) {
    a.Answers? && Found !in a.results && a.seen <= visited
  }

  lemma FirstFails(a: Answer, rest: Answers, all: Answers, visited: Seen)
    requires AllFail(all, visited) && a.Answer? && rest.Answers? && a.seen <= rest.seen
    requires all == Answers([a.presence] + rest.results, rest.seen, a.cut || rest.cut)
    ensures Fails(a, visited) && AllFail(rest, visited)
  {
    assert forall p :: p in [a.presence] + rest.results <==> p == a.presence || p in rest.results;
  }

  lemma DeclLacks(w: World, d: string, path: seq<Step>, steps: seq<Step>, seen: Seen, fuel: nat, visited: Seen, n: nat)
    requires d in w.decls && Left(path, steps) && AllLack(w, path, visited, n)
    requires Fails(LookupDecl(w, d, steps, seen, fuel), visited)
    ensures !DeclHas(w, d, steps, false, n)
  {
    hide LookupTy, LookupField, LookupBases, TyHas, FieldHas, BaseHas;
    if !w.decls[d].decl.Enum? {
      assert (d, |steps|) in visited;
      assert Lacks(w, path, (d, |steps|), n);
    }
  }

  lemma FieldLacks(w: World, file: string, f: Field, path: seq<Step>, steps: seq<Step>, seen: Seen, fuel: nat,
                   visited: Seen, n: nat)
    requires f.Property? && steps != [] && (f.ty.Some? ==> Straight(f.ty.value)) && Left(path, steps)
    requires LackBelow(w, path, visited, n) && Fails(LookupField(w, file, f, steps, seen, fuel), visited)
    ensures !FieldHas(w, file, f, steps, false, n)
    decreases f, 1
  {
    LeftNext(path, steps);
    if |steps| > 1 && f.ty.Some? { TyLacks(w, file, f.ty.value, path, steps[1..], seen, fuel, visited, n); }
  }

  lemma {:induction false} BasesLack(w: World, file: string, bases: seq<Option<string>>, path: seq<Step>,
                                     steps: seq<Step>, seen: Seen, fuel: nat, visited: Seen, n: nat)
    requires Left(path, steps) && AllLack(w, path, visited, n)
    requires AllFail(LookupBases(w, file, bases, steps, seen, fuel), visited)
    ensures forall k :: 0 <= k < |bases| ==> !BaseHas(w, file, bases[k], steps, false, n)
    decreases bases
  {
    hide LookupDecl, DeclHas, Left, AllLack;
    if bases != [] {
      var d := if bases[0].None? then None else DeclFor(w, file, bases[0].value);
      var first := if d.None? then Answer(Unknown, seen, false) else LookupDecl(w, d.value, steps, seen, fuel);
      var rest := LookupBases(w, file, bases[1..], steps, first.seen, fuel);
      FirstFails(first, rest, LookupBases(w, file, bases, steps, seen, fuel), visited);
      if d.Some? { DeclLacks(w, d.value, path, steps, seen, fuel, visited, n); }
      BasesLack(w, file, bases[1..], path, steps, first.seen, fuel, visited, n);
      assert forall k :: 1 <= k < |bases| ==> bases[k] == bases[1..][k - 1];
    }
  }

  lemma {:induction false} EachLack(w: World, file: string, ts: seq<Ty>, path: seq<Step>, steps: seq<Step>, seen: Seen,
                                    fuel: nat, visited: Seen, n: nat)
    requires (forall t :: t in ts ==> Straight(t)) && Left(path, steps)
    requires LackBelow(w, path, visited, n) && AllFail(LookupEach(w, file, ts, steps, seen, fuel), visited)
    ensures forall k :: 0 <= k < |ts| ==> !TyHas(w, file, ts[k], steps, false, n)
    decreases ts, 1
  {
    hide LookupTy, TyHas, Left, LackBelow, Straight;
    if ts != [] {
      var first := LookupTy(w, file, ts[0], steps, seen, fuel);
      var rest := LookupEach(w, file, ts[1..], steps, first.seen, fuel);
      FirstFails(first, rest, LookupEach(w, file, ts, steps, seen, fuel), visited);
      TyLacks(w, file, ts[0], path, steps, seen, fuel, visited, n);
      EachLack(w, file, ts[1..], path, steps, first.seen, fuel, visited, n);
      assert forall k :: 1 <= k < |ts| ==> ts[k] == ts[1..][k - 1];
    }
  }

  lemma {:induction false} TyLacks(w: World, file: string, t: Ty, path: seq<Step>, steps: seq<Step>, seen: Seen,
                                   fuel: nat, visited: Seen, n: nat)
    requires Straight(t) && Left(path, steps)
    requires LackBelow(w, path, visited, n) && Fails(LookupTy(w, file, t, steps, seen, fuel), visited)
    ensures !TyHas(w, file, t, steps, false, n)
    decreases t, 0
  {
    hide LookupTy, Left, LackBelow, Next, NextDecl, NextField, Straight, TyHas;
    FailsLater(w, file, t, steps, seen, fuel, visited);
    if n == 0 {
      NothingDerived(w, file, t, steps);
    } else {
      LackLess(w, path, visited, n);
      if Next(t, steps).Some? {
        var (part, rest) := Next(t, steps).value;
        NextLeft(t, path, steps);
        LookupNext(w, file, t, steps, seen, fuel - 1);
        TyLacks(w, file, part, path, rest, seen, fuel - 1, visited, n - 1);
        HasNext(w, file, t, steps, n - 1);
      } else if NextDecl(w, file, t).Some? {
        LookupNextDecl(w, file, t, steps, seen, fuel - 1);
        DeclLacks(w, NextDecl(w, file, t).value, path, steps, seen, fuel - 1, visited, n - 1);
        HasNextDecl(w, file, t, steps, n - 1);
      } else if NextField(t, steps).Some? {
        LookupNextField(w, file, t, steps, seen, fuel - 1);
        MemberStraight(t, NextField(t, steps).value);
        FieldLacks(w, file, NextField(t, steps).value, path, steps, seen, fuel - 1, visited, n - 1);
        HasNextField(w, file, t, steps, n - 1);
      } else if t.Intersection? {
        LookupParts(w, file, t, t.parts, steps, seen, fuel - 1);
        PartsStraight(t);
        EachLack(w, file, t.parts, path, steps, seen, fuel - 1, visited, n - 1);
        HasPart(w, file, t, steps, n - 1);
      } else {
        PartsStraight(t);
        HasEnds(w, file, t, steps, n - 1);
      }
    }
  }

  lemma FailsLater(w: World, file: string, t: Ty, steps: seq<Step>, seen: Seen, fuel: nat, visited: Seen)
    requires Fails(LookupTy(w, file, t, steps, seen, fuel), visited)
    ensures fuel > 0 && steps != []
  {
  }

  lemma NothingDerived(w: World, file: string, t: Ty, steps: seq<Step>)
    ensures !TyHas(w, file, t, steps, false, 0)
  {
  }

  lemma MemberStraight(t: Ty, f: Field)
    requires Straight(t) && t.Literal? && f in t.members && f.Property?
    ensures f.ty.Some? ==> Straight(f.ty.value)
  {
  }

  lemma PartsStraight(t: Ty)
    requires Straight(t)
    ensures !t.Union? && (t.Intersection? ==> forall p :: p in t.parts ==> Straight(p))
  {
  }

  lemma HasNext(w: World, file: string, t: Ty, steps: seq<Step>, n: nat)
    requires steps != [] && Next(t, steps).Some?
    ensures TyHas(w, file, t, steps, false, n + 1) <==>
            TyHas(w, file, Next(t, steps).value.0, Next(t, steps).value.1, false, n)
  {
  }

  lemma HasNextDecl(w: World, file: string, t: Ty, steps: seq<Step>, n: nat)
    requires steps != [] && NextDecl(w, file, t).Some?
    ensures TyHas(w, file, t, steps, false, n + 1) <==> DeclHas(w, NextDecl(w, file, t).value, steps, false, n)
  {
  }

  lemma HasNextField(w: World, file: string, t: Ty, steps: seq<Step>, n: nat)
    requires steps != [] && NextField(t, steps).Some?
    ensures TyHas(w, file, t, steps, false, n + 1) <==> FieldHas(w, file, NextField(t, steps).value, steps, false, n)
  {
  }

  lemma HasPart(w: World, file: string, t: Ty, steps: seq<Step>, n: nat)
    requires steps != [] && t.Intersection?
    ensures TyHas(w, file, t, steps, false, n + 1) <==>
            exists k :: 0 <= k < |t.parts| && TyHas(w, file, t.parts[k], steps, false, n)
  {
  }

  lemma HasEnds(w: World, file: string, t: Ty, steps: seq<Step>, n: nat)
    requires steps != [] && Next(t, steps).None? && NextDecl(w, file, t).None? && NextField(t, steps).None?
    requires !t.Intersection? && !t.Union?
    ensures !TyHas(w, file, t, steps, false, n + 1)
  {
  }

  // ----- whatever has been visited in vain lacks the path -----

  ghost predicate NewLack(w: World, path: seq<Step>, before: Seen, after: Seen, n: nat) {
    forall v :: v in after && v !in before ==> Lacks(w, path, v, n)
  }

  lemma NewLackNothing(w: World, path: seq<Step>, seen: Seen, n: nat)
    ensures NewLack(w, path, seen, seen, n)
  {
  }

  lemma NewLackBoth(w: World, path: seq<Step>, before: Seen, middle: Seen, after: Seen, n: nat)
    requires NewLack(w, path, before, middle, n) && NewLack(w, path, middle, after, n)
    ensures NewLack(w, path, before, after, n)
  {
  }

  lemma NewLackFirst(w: World, path: seq<Step>, v: Visit, before: Seen, after: Seen, n: nat)
    requires NewLack(w, path, before + {v}, after, n) && Lacks(w, path, v, n)
    ensures NewLack(w, path, before, after, n)
  {
    hide Lacks;
  }

  lemma {:induction false} DeclInVain(w: World, root: string, d: string, path: seq<Step>, steps: seq<Step>, seen: Seen,
                                      fuel: nat, visited: Seen, n: nat)
    requires StraightFrom(w, root) && Reaches(w, root, d) && d in w.decls && Left(path, steps) &&
             LackBelow(w, path, visited, n)
    requires Fails(LookupDecl(w, d, steps, seen, fuel), visited)
    ensures NewLack(w, path, seen, LookupDecl(w, d, steps, seen, fuel).seen, n)
    decreases fuel, 0, 0
  {
    hide NewLack, StraightFrom, Reaches, Left, LackBelow, LookupTy, LookupField, LookupBases, Inside, Straight, Lacks;
    NewLackNothing(w, path, seen, n);
    if !w.decls[d].decl.Enum? && (d, |steps|) !in seen {
      var file, v, seen' := w.decls[d].file, (d, |steps|), seen + {(d, |steps|)};
      NewLackNothing(w, path, seen', n);
      StraightHere(w, root, d);
      OwnLack(w, d, path, steps, seen, fuel, visited, n);
      match w.decls[d].decl {
        case Alias(ty) =>
          AliasInside(w, root, d);
          TyInVain(w, root, file, ty, path, steps, seen', fuel - 1, visited, n);
        case Interface(members, bases) =>
          if steps[0].Member? {
            var i := FieldIndex(members, steps[0].name);
            if i != -1 {
              if members[i].ty.Some? { MemberInside(w, root, d, i); }
              FieldInVain(w, root, file, members[i], path, steps, seen', fuel - 1, visited, n);
            } else if bases != [] {
              CombineFails(LookupBases(w, file, bases, steps, seen', fuel - 1));
              BasesInVain(w, root, d, bases, path, steps, seen', fuel - 1, visited, n);
            }
          }
      }
      NewLackFirst(w, path, v, seen, LookupDecl(w, d, steps, seen, fuel).seen, n);
    }
  }

  lemma CombineFails(a: Answers)
    ensures a.Answers? && Combine(a.results) != Found ==> Found !in a.results
  {
  }

  lemma StraightHere(w: World, root: string, d: string)
    requires StraightFrom(w, root) && Reaches(w, root, d) && d in w.decls
    ensures DeclStraight(w.decls[d].decl)
  {
  }

  lemma OwnLack(w: World, d: string, path: seq<Step>, steps: seq<Step>, seen: Seen, fuel: nat, visited: Seen, n: nat)
    requires d in w.decls && !w.decls[d].decl.Enum? && DeclStraight(w.decls[d].decl) && Left(path, steps)
    requires LackBelow(w, path, visited, n) && (d, |steps|) !in seen &&
             Fails(LookupDecl(w, d, steps, seen, fuel), visited)
    ensures Lacks(w, path, (d, |steps|), n)
  {
    hide LackBelow, LookupTy, LookupField, LookupBases, TyHas, FieldHas, BaseHas, Straight;
    if n > 0 {
      LackLess(w, path, visited, n);
      var file, seen' := w.decls[d].file, seen + {(d, |steps|)};
      match w.decls[d].decl {
        case Alias(ty) => TyLacks(w, file, ty, path, steps, seen', fuel - 1, visited, n - 1);
        case Interface(members, bases) =>
          if steps[0].Member? {
            var i := FieldIndex(members, steps[0].name);
            MemberHasFirst(w, file, members, steps, false, n - 1);
            if i != -1 {
              FieldLacks(w, file, members[i], path, steps, seen', fuel - 1, visited, n - 1);
            } else if bases != [] {
              CombineFails(LookupBases(w, file, bases, steps, seen', fuel - 1));
              BasesLack(w, file, bases, path, steps, seen', fuel - 1, visited, n - 1);
            }
          }
      }
    }
  }

  lemma FieldInVain(w: World, root: string, file: string, f: Field, path: seq<Step>, steps: seq<Step>, seen: Seen,
                    fuel: nat, visited: Seen, n: nat)
    requires StraightFrom(w, root) && f.Property? &&
             (f.ty.Some? ==> Straight(f.ty.value) && Inside(w, root, file, f.ty.value))
    requires steps != [] && Left(path, steps) && LackBelow(w, path, visited, n)
    requires Fails(LookupField(w, file, f, steps, seen, fuel), visited)
    ensures NewLack(w, path, seen, LookupField(w, file, f, steps, seen, fuel).seen, n)
    decreases fuel, 1, 0
  {
    hide NewLack, StraightFrom, LackBelow, Inside, Straight;
    NewLackNothing(w, path, seen, n);
    LeftNext(path, steps);
    if |steps| > 1 && f.ty.Some? { TyInVain(w, root, file, f.ty.value, path, steps[1..], seen, fuel, visited, n); }
  }

  lemma {:induction false} BasesInVain(w: World, root: string, d: string, bases: seq<Option<string>>, path: seq<Step>,
                                       steps: seq<Step>, seen: Seen, fuel: nat, visited: Seen, n: nat)
    requires StraightFrom(w, root) && Reaches(w, root, d) && d in w.decls && w.decls[d].decl.Interface?
    requires (forall b :: b in bases ==> b in w.decls[d].decl.bases) && Left(path, steps) &&
             LackBelow(w, path, visited, n)
    requires AllFail(LookupBases(w, w.decls[d].file, bases, steps, seen, fuel), visited)
    ensures NewLack(w, path, seen, LookupBases(w, w.decls[d].file, bases, steps, seen, fuel).seen, n)
    decreases fuel, 1, |bases|
  {
    hide NewLack, StraightFrom, Reaches, Left, LackBelow, LookupDecl;
    NewLackNothing(w, path, seen, n);
    if bases != [] {
      var file := w.decls[d].file;
      var e := if bases[0].None? then None else DeclFor(w, file, bases[0].value);
      var first := if e.None? then Answer(Unknown, seen, false) else LookupDecl(w, e.value, steps, seen, fuel);
      var rest := LookupBases(w, file, bases[1..], steps, first.seen, fuel);
      FirstFails(first, rest, LookupBases(w, file, bases, steps, seen, fuel), visited);
      if e.Some? {
        assert bases[0] in w.decls[d].decl.bases;
        BaseRefers(w, root, d, bases[0].value);
        DeclInVain(w, root, e.value, path, steps, seen, fuel, visited, n);
      }
      BasesInVain(w, root, d, bases[1..], path, steps, first.seen, fuel, visited, n);
      NewLackBoth(w, path, seen, first.seen, rest.seen, n);
    }
  }

  lemma {:induction false} EachInVain(w: World, root: string, file: string, ts: seq<Ty>, path: seq<Step>,
                                      steps: seq<Step>, seen: Seen, fuel: nat, visited: Seen, n: nat)
    requires StraightFrom(w, root) && forall t :: t in ts ==> Straight(t) && Inside(w, root, file, t)
    requires Left(path, steps) && LackBelow(w, path, visited, n)
    requires AllFail(LookupEach(w, file, ts, steps, seen, fuel), visited)
    ensures NewLack(w, path, seen, LookupEach(w, file, ts, steps, seen, fuel).seen, n)
    decreases fuel, 1, |ts|
  {
    hide NewLack, StraightFrom, Left, LackBelow, LookupTy, Inside, Straight;
    NewLackNothing(w, path, seen, n);
    if ts != [] {
      var first := LookupTy(w, file, ts[0], steps, seen, fuel);
      var rest := LookupEach(w, file, ts[1..], steps, first.seen, fuel);
      FirstFails(first, rest, LookupEach(w, file, ts, steps, seen, fuel), visited);
      TyInVain(w, root, file, ts[0], path, steps, seen, fuel, visited, n);
      EachInVain(w, root, file, ts[1..], path, steps, first.seen, fuel, visited, n);
      NewLackBoth(w, path, seen, first.seen, rest.seen, n);
    }
  }

  lemma {:induction false} TyInVain(w: World, root: string, file: string, t: Ty, path: seq<Step>, steps: seq<Step>,
                                    seen: Seen, fuel: nat, visited: Seen, n: nat)
    requires StraightFrom(w, root) && Straight(t) && Inside(w, root, file, t)
    requires Left(path, steps) && LackBelow(w, path, visited, n)
    requires Fails(LookupTy(w, file, t, steps, seen, fuel), visited)
    ensures NewLack(w, path, seen, LookupTy(w, file, t, steps, seen, fuel).seen, n)
    decreases fuel, 0, 0
  {
    hide NewLack, StraightFrom, Left, LackBelow, LookupTy, Next, NextDecl, NextField, Inside, Straight, Reaches;
    NewLackNothing(w, path, seen, n);
    FailsLater(w, file, t, steps, seen, fuel, visited);
    if Next(t, steps).Some? {
      var (part, rest) := Next(t, steps).value;
      NextLeft(t, path, steps);
      NextInside(w, root, file, t, steps);
      LookupNext(w, file, t, steps, seen, fuel - 1);
      TyInVain(w, root, file, part, path, rest, seen, fuel - 1, visited, n);
    } else if NextDecl(w, file, t).Some? {
      NextDeclInside(w, root, file, t);
      LookupNextDecl(w, file, t, steps, seen, fuel - 1);
      DeclInVain(w, root, NextDecl(w, file, t).value, path, steps, seen, fuel - 1, visited, n);
    } else if NextField(t, steps).Some? {
      NextFieldInside(w, root, file, t, steps);
      LookupNextField(w, file, t, steps, seen, fuel - 1);
      FieldInVain(w, root, file, NextField(t, steps).value, path, steps, seen, fuel - 1, visited, n);
    } else if t.Intersection? {
      PartsInside(w, root, file, t);
      LookupParts(w, file, t, t.parts, steps, seen, fuel - 1);
      EachInVain(w, root, file, t.parts, path, steps, seen, fuel - 1, visited, n);
    } else {
      PartsStraight(t);
      LookupEnds(w, file, t, steps, seen, fuel - 1);
    }
  }

  lemma NextInside(w: World, root: string, file: string, t: Ty, steps: seq<Step>)
    requires Inside(w, root, file, t) && steps != [] && Next(t, steps).Some?
    ensures Inside(w, root, file, Next(t, steps).value.0)
  {
    hide Inside, Refers, Next;
    var (part, path) := Next(t, steps).value;
    forall e, growth | Refers(w, file, part, e, growth) ensures Refers(w, file, t, e, growth + (|path| - |steps|)) {
      NextRefers(w, file, t, steps, e, growth);
    }
    PartInside(w, root, file, t, part, |path| - |steps|);
  }

  lemma NextFieldInside(w: World, root: string, file: string, t: Ty, steps: seq<Step>)
    requires Straight(t) && Inside(w, root, file, t) && steps != [] && NextField(t, steps).Some?
    ensures var f := NextField(t, steps).value; f.ty.Some? ==> Straight(f.ty.value) && Inside(w, root, file, f.ty.value)
  {
    hide Inside, Refers, NextField;
    var f := NextField(t, steps).value;
    if f.ty.Some? {
      MemberStraight(t, f);
      forall e, growth | Refers(w, file, f.ty.value, e, growth) ensures Refers(w, file, t, e, growth + -1) {
        FieldRefers(w, file, t, steps, e, growth);
      }
      PartInside(w, root, file, t, f.ty.value, -1);
    }
  }

  lemma PartsInside(w: World, root: string, file: string, t: Ty)
    requires Straight(t) && Inside(w, root, file, t) && t.Intersection?
    ensures forall p :: p in t.parts ==> Straight(p) && Inside(w, root, file, p)
  {
    hide Inside;
    forall p | p in t.parts ensures Straight(p) && Inside(w, root, file, p) { PartInside(w, root, file, t, p, 0); }
  }

  // ----- the guard costs no "found" -----

  lemma {:induction false} VisitedLack(w: World, d: string, steps: seq<Step>, fuel: nat, n: nat)
    requires d in w.decls && StraightFrom(w, d)
    requires var a := LookupDecl(w, d, steps, {}, fuel); a.Answer? && Fails(a, a.seen)
    ensures LackBelow(w, steps, LookupDecl(w, d, steps, {}, fuel).seen, n)
  {
    hide LookupDecl, StraightFrom, Lacks;
    if n > 0 {
      VisitedLack(w, d, steps, fuel, n - 1);
      assert Walk(w, d, []) && End(d, []) == d;
      var visited := LookupDecl(w, d, steps, {}, fuel).seen;
      DeclInVain(w, d, d, steps, steps, {}, fuel, visited, n - 1);
    }
  }

  /** Without unions and indexed accesses "found" is answered if and only if the type must have the path,
      however often the guard has cut the walk off. */
  lemma FoundExact(w: World, d: string, steps: seq<Step>, fuel: nat)
    requires d in w.decls && UnionsNonEmpty(w) && StraightFrom(w, d) && LookupDecl(w, d, steps, {}, fuel).Answer?
    ensures LookupDecl(w, d, steps, {}, fuel).presence == Found <==> MustHave(w, d, steps)
  {
    LookupMeaning(w, d, steps, fuel);
    hide LookupDecl, StraightFrom, UnionsNonEmpty, DeclHas;
    var a := LookupDecl(w, d, steps, {}, fuel);
    if a.presence != Found {
      forall n: nat ensures !DeclHas(w, d, steps, false, n) {
        VisitedLack(w, d, steps, fuel, n + 1);
        LackLess(w, steps, a.seen, n + 1);
        DeclLacks(w, d, steps, steps, {}, fuel, a.seen, n);
      }
    }
  }

  // ----- what an indexed access can cost -----

  /** `type X = A['x'] & A['n']` over `interface A { n: { m: ... } }`. */
  const INDEXED := World(
    map["X" := Located("f.ts", Alias(Intersection([Indexed(Reference("A", false, []), Some("x")),
                                                   Indexed(Reference("A", false, []), Some("n"))]))),
        "A" := Located("f.ts", Interface([Property("n", Some(Literal([Property("m", None)])))], []))],
    map[("f.ts", "A") := "A"])

  /** Two branches enter one declaration with as many steps left, but with different ones. The guard
      compares the number only and cuts the second branch off, the one that has the member. */
  lemma IndexedBranchLost()
    ensures var a := LookupDecl(INDEXED, "X", [Member("m")], {}, 6); a.Answer? && a.presence == Unknown
    ensures MustHave(INDEXED, "X", [Member("m")])
  {
    hide LookupDecl;
    IndexedAnswer(INDEXED, [Member("m")], 2);
    IndexedHas();
  }

  lemma IndexedAnswer(w: World, steps: seq<Step>, n: nat)
    requires w == INDEXED && steps == [Member("m")] && n == 2
    ensures var a := LookupDecl(w, "X", steps, {}, n + 4); a.Answer? && a.presence == Unknown
  {
    var x, y := Indexed(Reference("A", false, []), Some("x")), Indexed(Reference("A", false, []), Some("n"));
    var s := {("X", 1)};
    var s' := s + {("A", 2)};
    IndexedFirst(w, steps, s, n);
    IndexedSecond(w, steps, s', n);
    hide LookupTy;
    var parts := [x, y];
    assert parts[1..] == [y] && parts[1..][1..] == [];
    assert LookupEach(w, "f.ts", [], steps, s', n + 2) == Answers([], s', false);
    assert LookupEach(w, "f.ts", [y], steps, s', n + 2) == Answers([Unknown], s', true);
    var each := LookupEach(w, "f.ts", parts, steps, s, n + 2);
    assert each == Answers([Missing, Unknown], s', true);
    assert each.results[1] == Unknown;
    IndexedTop(w, parts, steps, s, each, n);
  }

  lemma IndexedTop(w: World, parts: seq<Ty>, steps: seq<Step>, s: Seen, each: Answers, n: nat)
    requires w == INDEXED && w.decls["X"].decl == Alias(Intersection(parts)) && steps == [Member("m")] &&
             s == {("X", 1)}
    requires each == LookupEach(w, "f.ts", parts, steps, s, n + 2) && each.Answers? &&
             each.results == [Missing, Unknown]
    ensures var a := LookupDecl(w, "X", steps, {}, n + 4); a.Answer? && a.presence == Unknown
  {
    hide LookupEach;
    assert {} + {("X", 1)} == s;
    assert each.results[1] == Unknown;
    LookupParts(w, "f.ts", Intersection(parts), parts, steps, s, n + 2);
  }

  lemma IndexedFirst(w: World, steps: seq<Step>, s: Seen, n: nat)
    requires w == INDEXED && steps == [Member("m")] && s == {("X", 1)} && n == 2
    ensures LookupTy(w, "f.ts", Indexed(Reference("A", false, []), Some("x")), steps, s, n + 2) ==
            Answer(Missing, s + {("A", 2)}, false)
  {
    var longer := [Member("x")] + steps;
    assert DeclFor(w, "f.ts", "A") == Some("A");
    assert FieldIndex(w.decls["A"].decl.members, "x") == -1;
    assert LookupDecl(w, "A", longer, s, n) == Answer(Missing, s + {("A", 2)}, false);
    hide LookupDecl;
    assert LookupTy(w, "f.ts", Reference("A", false, []), longer, s, n + 1) == Answer(Missing, s + {("A", 2)}, false);
  }

  lemma IndexedSecond(w: World, steps: seq<Step>, s: Seen, n: nat)
    requires w == INDEXED && steps == [Member("m")] && ("A", 2) in s && n == 2
    ensures LookupTy(w, "f.ts", Indexed(Reference("A", false, []), Some("n")), steps, s, n + 2) ==
            Answer(Unknown, s, true)
  {
    var longer := [Member("n")] + steps;
    assert DeclFor(w, "f.ts", "A") == Some("A");
    assert LookupDecl(w, "A", longer, s, n) == Answer(Unknown, s, true);
    hide LookupDecl;
    assert LookupTy(w, "f.ts", Reference("A", false, []), longer, s, n + 1) == Answer(Unknown, s, true);
  }

  lemma IndexedHas()
    ensures MustHave(INDEXED, "X", [Member("m")])
  {
    var w, steps, a := INDEXED, [Member("m")], Reference("A", false, []);
    IndexedDeclHas(w, steps, 2);
    hide DeclHas;
    var parts := [Indexed(a, Some("x")), Indexed(a, Some("n"))];
    IndexedPartHas(w, steps, 2);
    assert parts[1] == Indexed(a, Some("n"));
    IndexedAliasHas(w, parts, steps, 4);
  }

  lemma IndexedAliasHas(w: World, parts: seq<Ty>, steps: seq<Step>, n: nat)
    requires w == INDEXED && w.decls["X"].decl == Alias(Intersection(parts)) && steps != []
    requires |parts| == 2 && TyHas(w, "f.ts", parts[1], steps, false, n)
    ensures DeclHas(w, "X", steps, false, n + 2)
  {
    HasPart(w, "f.ts", Intersection(parts), steps, n);
  }

  lemma IndexedDeclHas(w: World, steps: seq<Step>, n: nat)
    requires w == INDEXED && steps == [Member("m")] && n == 2
    ensures DeclHas(w, "A", [Member("n")] + steps, false, n)
  {
    var longer, inner := [Member("n")] + steps, Literal([Property("m", None)]);
    assert FieldIndex([Property("m", None)], "m") == 0 && FieldIndex(w.decls["A"].decl.members, "n") == 0;
    assert longer[1..] == steps;
    assert TyHas(w, "f.ts", inner, steps, false, n - 1);
  }

  lemma IndexedPartHas(w: World, steps: seq<Step>, n: nat)
    requires w == INDEXED && steps == [Member("m")] && DeclHas(w, "A", [Member("n")] + steps, false, n)
    ensures TyHas(w, "f.ts", Indexed(Reference("A", false, []), Some("n")), steps, false, n + 2)
  {
    hide DeclHas;
    assert DeclFor(w, "f.ts", "A") == Some("A");
    assert TyHas(w, "f.ts", Reference("A", false, []), [Member("n")] + steps, false, n + 1);
  }
}
