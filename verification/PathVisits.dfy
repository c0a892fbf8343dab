/** What `lookupPath` enters: the next part of a type, and the declarations on the way, if nothing stops
    the walk but its depth. */
module PathVisits {
  import opened Packages
  import opened Basics
  import opened PathLookup

  // ----- one step of the walk -----

  /** The type that the walk enters next when there is just one, and the path it takes along. */
  function Next(t: Ty, steps: seq<Step>): (r: Option<(Ty, seq<Step>)>)
    requires steps != []
    ensures r.Some? ==> r.value.0 < t
  {
    match t
    case Parenthesized(inner) => Some((inner, steps))
    case ArrayOf(element) => if steps[0].Element? then Some((element, steps[1..])) else None
    case Operator(operand) => Some((operand, steps))
    case Indexed(target, index) => if index.Some? then Some((target, [Member(index.value)] + steps)) else None
    case Reference(name, qualified, args) =>
      if name in WRAPPERS && args != [] then Some((args[0], steps))
      else if (name == "Array" || name == "ReadonlyArray") && args != [] && steps[0].Element? then
          Some((args[0], steps[1..]))
      else None
    case _ => None
  }

  /** The declaration that the walk enters next. */
  function NextDecl(w: World, file: string, t: Ty): (r: Option<string>)
    ensures r.Some? ==> r.value in w.decls
  {
    if t.Reference? && !(t.name in WRAPPERS && t.args != []) &&
        !((t.name == "Array" || t.name == "ReadonlyArray") && t.args != []) && !t.qualified
    then DeclFor(w, file, t.name) else None
  }

  /** The member of a literal that the walk enters next. */
  function NextField(t: Ty, steps: seq<Step>): (r: Option<Field>)
    requires steps != []
    ensures r.Some? ==> t.Literal? && r.value in t.members && r.value.Property?
  {
    if t.Literal? && steps[0].Member? && FieldIndex(t.members, steps[0].name) != -1
    then Some(t.members[FieldIndex(t.members, steps[0].name)]) else None
  }

  lemma LookupNext(w: World, file: string, t: Ty, steps: seq<Step>, seen: Seen, n: nat)
    requires steps != [] && Next(t, steps).Some?
    ensures LookupTy(w, file, t, steps, seen, n + 1) ==
            LookupTy(w, file, Next(t, steps).value.0, Next(t, steps).value.1, seen, n)
  {
  }

  lemma LookupNextDecl(w: World, file: string, t: Ty, steps: seq<Step>, seen: Seen, n: nat)
    requires steps != [] && NextDecl(w, file, t).Some?
    ensures LookupTy(w, file, t, steps, seen, n + 1) == LookupDecl(w, NextDecl(w, file, t).value, steps, seen, n)
  {
  }

  lemma LookupNextField(w: World, file: string, t: Ty, steps: seq<Step>, seen: Seen, n: nat)
    requires steps != [] && NextField(t, steps).Some?
    ensures LookupTy(w, file, t, steps, seen, n + 1) == LookupField(w, file, NextField(t, steps).value, steps, seen, n)
  {
  }

  lemma LookupEnds(w: World, file: string, t: Ty, steps: seq<Step>, seen: Seen, n: nat)
    requires steps == [] ||
             (Next(t, steps).None? && NextDecl(w, file, t).None? && NextField(t, steps).None? && !t.Intersection? &&
               !t.Union?)
    ensures var a := LookupTy(w, file, t, steps, seen, n + 1); a.Answer? && a.seen == seen && !a.cut
  {
  }

  lemma NoFuelNoAnswer(w: World, file: string, t: Ty, steps: seq<Step>, seen: Seen)
    ensures LookupTy(w, file, t, steps, seen, 0).OutOfFuel?
  {
  }

  // ----- the visits of the walk without its guard -----

  /** A declaration, and the number of steps left when the walk enters it. */
  type Visit = (string, nat)

  /** The declarations that the walk enters, in order, if nothing stops it but its depth. */
  function DeclVisits(w: World, d: string, steps: seq<Step>, fuel: nat): seq<Visit>
    requires d in w.decls
    decreases fuel, 0, 0
  {
    if fuel == 0 || steps == [] || w.decls[d].decl.Enum? then []
    else [(d, |steps|)] + BodyVisits(w, d, steps, fuel - 1)
  }

  function BodyVisits(w: World, d: string, steps: seq<Step>, fuel: nat): seq<Visit>
    requires d in w.decls && steps != []
    decreases fuel, 2, 0
  {
    var file := w.decls[d].file;
    match w.decls[d].decl
    case Enum => []
    case Alias(ty) => TyVisits(w, file, ty, steps, fuel)
    case Interface(members, bases) =>
      if steps[0].Element? then []
      else
        var i := FieldIndex(members, steps[0].name);
        if i != -1 then FieldVisits(w, file, members[i], steps, fuel) else BasesVisits(w, file, bases, steps, fuel)
  }

  function FieldVisits(w: World, file: string, field: Field, steps: seq<Step>, fuel: nat): seq<Visit>
    requires field.Property? && steps != []
    decreases fuel, 1, 0
  {
    if |steps| == 1 || field.ty.None? then [] else TyVisits(w, file, field.ty.value, steps[1..], fuel)
  }

  function BaseVisits(w: World, file: string, base: Option<string>, steps: seq<Step>, fuel: nat): seq<Visit>
    decreases fuel, 1, 0
  {
    if base.None? || DeclFor(w, file, base.value).None? then []
    else DeclVisits(w, DeclFor(w, file, base.value).value, steps, fuel)
  }

  function BasesVisits(w: World, file: string, bases: seq<Option<string>>, steps: seq<Step>, fuel: nat): seq<Visit>
    decreases fuel, 1, |bases| + 1
  {
    if bases == [] then []
    else BaseVisits(w, file, bases[0], steps, fuel) + BasesVisits(w, file, bases[1..], steps, fuel)
  }

  function EachVisits(w: World, file: string, ts: seq<Ty>, steps: seq<Step>, fuel: nat): seq<Visit>
    decreases fuel, 1, |ts|
  {
    if ts == [] then [] else TyVisits(w, file, ts[0], steps, fuel) + EachVisits(w, file, ts[1..], steps, fuel)
  }

  function TyVisits(w: World, file: string, t: Ty, steps: seq<Step>, fuel: nat): seq<Visit>
    decreases fuel, 0, 0
  {
    if fuel == 0 || steps == [] then []
    else if Next(t, steps).Some? then TyVisits(w, file, Next(t, steps).value.0, Next(t, steps).value.1, fuel - 1)
    else if NextDecl(w, file, t).Some? then DeclVisits(w, NextDecl(w, file, t).value, steps, fuel - 1)
    else if NextField(t, steps).Some? then FieldVisits(w, file, NextField(t, steps).value, steps, fuel - 1)
    else if t.Intersection? || t.Union? then EachVisits(w, file, t.parts, steps, fuel - 1)
    else []
  }

  // ----- deeper walks visit more -----

  ghost predicate Fewer(a: seq<Visit>, b: seq<Visit>) {
    multiset(a) <= multiset(b)
  }

  lemma FewerConcat(a: seq<Visit>, b: seq<Visit>, c: seq<Visit>, d: seq<Visit>)
    requires Fewer(a, c) && Fewer(b, d)
    ensures Fewer(a + b, c + d)
  {
  }

  lemma FewerFirst(v: Visit, a: seq<Visit>, b: seq<Visit>)
    requires Fewer(a, b)
    ensures Fewer([v] + a, [v] + b)
  {
  }

  lemma FewerNothing(a: seq<Visit>)
    ensures Fewer([], a)
  {
  }

  lemma FewerDistinct(a: seq<Visit>, b: seq<Visit>)
    requires Fewer(a, b) && Distinct(b)
    ensures Distinct(a)
  {
    DistinctByCount(a);
    DistinctByCount(b);
  }

  lemma {:induction false} MoreDecl(w: World, d: string, steps: seq<Step>, m: nat, n: nat)
    requires d in w.decls && m <= n
    ensures Fewer(DeclVisits(w, d, steps, m), DeclVisits(w, d, steps, n))
    decreases m, 0, 0
  {
    hide Fewer;
    FewerNothing(DeclVisits(w, d, steps, n));
    if m > 0 && steps != [] && !w.decls[d].decl.Enum? {
      MoreBody(w, d, steps, m - 1, n - 1);
      FewerFirst((d, |steps|), BodyVisits(w, d, steps, m - 1), BodyVisits(w, d, steps, n - 1));
    }
  }

  lemma {:induction false} MoreBody(w: World, d: string, steps: seq<Step>, m: nat, n: nat)
    requires d in w.decls && steps != [] && m <= n
    ensures Fewer(BodyVisits(w, d, steps, m), BodyVisits(w, d, steps, n))
    decreases m, 2, 0
  {
    hide Fewer;
    FewerNothing(BodyVisits(w, d, steps, n));
    var file := w.decls[d].file;
    match w.decls[d].decl {
      case Enum =>
      case Alias(ty) => MoreTy(w, file, ty, steps, m, n);
      case Interface(members, bases) =>
        if steps[0].Member? {
          var i := FieldIndex(members, steps[0].name);
          if i != -1 { MoreField(w, file, members[i], steps, m, n); } else { MoreBases(w, file, bases, steps, m, n); }
        }
    }
  }

  lemma MoreField(w: World, file: string, field: Field, steps: seq<Step>, m: nat, n: nat)
    requires field.Property? && steps != [] && m <= n
    ensures Fewer(FieldVisits(w, file, field, steps, m), FieldVisits(w, file, field, steps, n))
    decreases m, 1, 0
  {
    hide Fewer;
    FewerNothing([]);
    if |steps| > 1 && field.ty.Some? { MoreTy(w, file, field.ty.value, steps[1..], m, n); }
  }

  lemma {:induction false} MoreBases(w: World, file: string, bases: seq<Option<string>>, steps: seq<Step>, m: nat,
                                     n: nat)
    requires m <= n
    ensures Fewer(BasesVisits(w, file, bases, steps, m), BasesVisits(w, file, bases, steps, n))
    decreases m, 1, |bases|
  {
    hide Fewer;
    FewerNothing([]);
    if bases != [] {
      var d := if bases[0].None? then None else DeclFor(w, file, bases[0].value);
      if d.Some? { MoreDecl(w, d.value, steps, m, n); }
      MoreBases(w, file, bases[1..], steps, m, n);
      FewerConcat(BaseVisits(w, file, bases[0], steps, m), BasesVisits(w, file, bases[1..], steps, m),
                  BaseVisits(w, file, bases[0], steps, n), BasesVisits(w, file, bases[1..], steps, n));
    }
  }

  lemma {:induction false} MoreEach(w: World, file: string, ts: seq<Ty>, steps: seq<Step>, m: nat, n: nat)
    requires m <= n
    ensures Fewer(EachVisits(w, file, ts, steps, m), EachVisits(w, file, ts, steps, n))
    decreases m, 1, |ts|
  {
    hide Fewer;
    FewerNothing([]);
    if ts != [] {
      MoreTy(w, file, ts[0], steps, m, n);
      MoreEach(w, file, ts[1..], steps, m, n);
      FewerConcat(TyVisits(w, file, ts[0], steps, m), EachVisits(w, file, ts[1..], steps, m),
                  TyVisits(w, file, ts[0], steps, n), EachVisits(w, file, ts[1..], steps, n));
    }
  }

  lemma {:induction false} MoreTy(w: World, file: string, t: Ty, steps: seq<Step>, m: nat, n: nat)
    requires m <= n
    ensures Fewer(TyVisits(w, file, t, steps, m), TyVisits(w, file, t, steps, n))
    decreases m, 0, 0
  {
    hide Fewer, Next, NextDecl, NextField;
    FewerNothing(TyVisits(w, file, t, steps, n));
    if m > 0 && steps != [] {
      if Next(t, steps).Some? {
        MoreTy(w, file, Next(t, steps).value.0, Next(t, steps).value.1, m - 1, n - 1);
      } else if NextDecl(w, file, t).Some? {
        MoreDecl(w, NextDecl(w, file, t).value, steps, m - 1, n - 1);
      } else if NextField(t, steps).Some? {
        MoreField(w, file, NextField(t, steps).value, steps, m - 1, n - 1);
      } else if t.Intersection? || t.Union? {
        MoreEach(w, file, t.parts, steps, m - 1, n - 1);
      }
    }
  }
}
