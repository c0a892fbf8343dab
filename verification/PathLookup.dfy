/** `lookupPath`: does a declared config type have a member at a schema key path? A three-valued
    walk over possibly recursive types, with one visited set shared by all branches. */
module PathLookup {
  import opened Basics

  /** One step of a key path: a named member, or an array-element hop. */
  datatype Step = Member(name: string) | Element

  datatype Presence = Found | Missing | Unknown

  datatype Field = Property(name: string, ty: Option<Ty>) | NotProperty

  datatype Ty =
    | Literal(members: seq<Field>)
    | Parenthesized(inner: Ty)
    | Intersection(parts: seq<Ty>)
    | Union(parts: seq<Ty>)
    | ArrayOf(element: Ty)
    | Operator(operand: Ty)
    | Indexed(target: Ty, index: Option<string>)
    | Reference(name: string, qualified: bool, args: seq<Ty>)
    | Opaque

  /** `bases` are the heritage clauses' names; None is a base that is not a plain identifier. */
  datatype Decl =
    | Interface(members: seq<Field>, bases: seq<Option<string>>)
    | Alias(ty: Ty)
    | Enum

  datatype Located = Located(file: string, decl: Decl)

  /** The declarations by identity, and which of them a name in a file resolves to. */
  datatype World = World(decls: map<string, Located>, resolution: map<(string, string), string>)

  /** `declForTypeName`; None is its 'unknown'. */
  function DeclFor(w: World, file: string, name: string): (r: Option<string>)
    ensures r.Some? <==> (file, name) in w.resolution && w.resolution[(file, name)] in w.decls
    ensures r.Some? ==> r.value in w.decls && r.value == w.resolution[(file, name)]
  {
    if (file, name) in w.resolution && w.resolution[(file, name)] in w.decls
    then Some(w.resolution[(file, name)]) else None
  }

  const WRAPPERS := {"Partial", "Required", "Readonly", "NonNullable"}

  predicate IsNamed(field: Field, name: string) {
    field.Property? && field.name == name
  }

  /** The first property signature of that name. */
  ghost predicate IsFirst(members: seq<Field>, name: string, i: int) {
    0 <= i < |members| && IsNamed(members[i], name) && forall j :: 0 <= j < i ==> !IsNamed(members[j], name)
  }

  /** What `intoMembers` looks for: -1 stands for its null. */
  function FieldIndex(members: seq<Field>, name: string): (i: int)
    ensures i != -1 ==> IsFirst(members, name, i)
    ensures i == -1 ==> forall j :: 0 <= j < |members| ==> !IsNamed(members[j], name)
  {
    if members == [] then -1
    else if members[0].Property? && members[0].name == name then 0
    else
      var i := FieldIndex(members[1..], name);
      assert forall j :: 1 <= j < |members| ==> members[j] == members[1..][j - 1];
      if i == -1 then -1 else i + 1
  }

  /** Visited declarations, each with the number of steps that were left. */
  type Seen = set<(string, nat)>

  /** `cut` records that the guard against recursive types answered somewhere in the walk. */
  datatype Answer = Answer(presence: Presence, seen: Seen, cut: bool) | OutOfFuel

  /** The answers for a list of types, in order. */
  datatype Answers = Answers(results: seq<Presence>, seen: Seen, cut: bool) | NoAnswers

  function Combine(results: seq<Presence>): Presence {
    if Found in results then Found else if Unknown in results then Unknown else Missing
  }

  function CombineUnion(results: seq<Presence>): Presence {
    if forall r :: r in results ==> r == Found then Found
    else if forall r :: r in results ==> r == Missing then Missing
    else Unknown
  }

  // ----- the walk; `fuel` bounds the depth of its recursion -----

  function LookupDecl(w: World, d: string, steps: seq<Step>, seen: Seen, fuel: nat): (a: Answer)
    requires d in w.decls
    ensures a.Answer? ==> seen <= a.seen
    decreases fuel, 0, 0
  {
    var file, decl := w.decls[d].file, w.decls[d].decl;
    if fuel == 0 then OutOfFuel
    else if steps == [] then Answer(Found, seen, false)
    else if decl.Enum? then Answer(Unknown, seen, false)
    else if (d, |steps|) in seen then Answer(Unknown, seen, true)
    else
      var seen' := seen + {(d, |steps|)};
      match decl
      case Alias(ty) => LookupTy(w, file, ty, steps, seen', fuel - 1)
      case Interface(members, bases) =>
        if steps[0].Element? then Answer(Unknown, seen', false)
        else
          var i := FieldIndex(members, steps[0].name);
          if i != -1 then LookupField(w, file, members[i], steps, seen', fuel - 1)
          else if bases == [] then Answer(Missing, seen', false)
          else
            match LookupBases(w, file, bases, steps, seen', fuel - 1)
            case NoAnswers => OutOfFuel
            case Answers(results, s, cut) => Answer(Combine(results), s, cut)
  }

  /** The rest of the path, once its first step has met this property. */
  function LookupField(w: World, file: string, field: Field, steps: seq<Step>, seen: Seen, fuel: nat): (a: Answer)
    requires field.Property? && steps != []
    ensures a.Answer? ==> seen <= a.seen
    decreases fuel, 1, 0
  {
    if |steps| == 1 then Answer(Found, seen, false)
    else if field.ty.None? then Answer(Unknown, seen, false)
    else LookupTy(w, file, field.ty.value, steps[1..], seen, fuel)
  }

  function LookupBases(w: World, file: string, bases: seq<Option<string>>, steps: seq<Step>, seen: Seen,
                       fuel: nat): (a: Answers)
    ensures a.Answers? ==> seen <= a.seen && |a.results| == |bases|
    decreases fuel, 1, |bases|
  {
    if bases == [] then Answers([], seen, false)
    else
      var first :=
        if bases[0].None? then Answer(Unknown, seen, false)
        else
          var d := DeclFor(w, file, bases[0].value);
          if d.None? then Answer(Unknown, seen, false) else LookupDecl(w, d.value, steps, seen, fuel);
      if first.OutOfFuel? then NoAnswers
      else
        match LookupBases(w, file, bases[1..], steps, first.seen, fuel)
        case NoAnswers => NoAnswers
        case Answers(results, s, cut) => Answers([first.presence] + results, s, first.cut || cut)
  }

  function LookupEach(w: World, file: string, ts: seq<Ty>, steps: seq<Step>, seen: Seen, fuel: nat): (a: Answers)
    ensures a.Answers? ==> seen <= a.seen && |a.results| == |ts|
    decreases fuel, 1, |ts|
  {
    if ts == [] then Answers([], seen, false)
    else
      var first := LookupTy(w, file, ts[0], steps, seen, fuel);
      if first.OutOfFuel? then NoAnswers
      else
        match LookupEach(w, file, ts[1..], steps, first.seen, fuel)
        case NoAnswers => NoAnswers
        case Answers(results, s, cut) => Answers([first.presence] + results, s, first.cut || cut)
  }

  function LookupTy(w: World, file: string, t: Ty, steps: seq<Step>, seen: Seen, fuel: nat): (a: Answer)
    ensures a.Answer? ==> seen <= a.seen
    decreases fuel, 0, 0
  {
    if fuel == 0 then OutOfFuel
    else if steps == [] then Answer(Found, seen, false)
    else
      match t
      case Literal(members) =>
        if steps[0].Element? then Answer(Unknown, seen, false)
        else
          var i := FieldIndex(members, steps[0].name);
          if i == -1 then Answer(Missing, seen, false) else LookupField(w, file, members[i], steps, seen, fuel - 1)
      case Parenthesized(inner) => LookupTy(w, file, inner, steps, seen, fuel - 1)
      case Intersection(parts) =>
        (match LookupEach(w, file, parts, steps, seen, fuel - 1)
         case NoAnswers => OutOfFuel
         case Answers(results, s, cut) => Answer(Combine(results), s, cut))
      case Union(parts) =>
        (match LookupEach(w, file, parts, steps, seen, fuel - 1)
         case NoAnswers => OutOfFuel
         case Answers(results, s, cut) => Answer(CombineUnion(results), s, cut))
      case ArrayOf(element) =>
        if steps[0].Element? then LookupTy(w, file, element, steps[1..], seen, fuel - 1)
        else Answer(Unknown, seen, false)
      case Operator(operand) => LookupTy(w, file, operand, steps, seen, fuel - 1)
      case Indexed(target, index) =>
        if index.None? then Answer(Unknown, seen, false)
        else LookupTy(w, file, target, [Member(index.value)] + steps, seen, fuel - 1)
      case Reference(name, qualified, args) =>
        if name in WRAPPERS && args != [] then LookupTy(w, file, args[0], steps, seen, fuel - 1)
        else if (name == "Array" || name == "ReadonlyArray") && args != [] then
          if steps[0].Element? then LookupTy(w, file, args[0], steps[1..], seen, fuel - 1)
          else Answer(Unknown, seen, false)
        else if qualified then Answer(Unknown, seen, false)
        else
          var d := DeclFor(w, file, name);
          if d.None? then Answer(Unknown, seen, false) else LookupDecl(w, d.value, steps, seen, fuel - 1)
      case Opaque => Answer(Unknown, seen, false)
  }

  // ----- what a declared type has -----

  /** The member at the end of the path is declared, by a derivation of at most n steps. What the
      walk cannot see through counts as declared exactly when `lenient`; a member of a union must be
      declared by every part, or, leniently, by some part. */
  ghost predicate DeclHas(w: World, d: string, steps: seq<Step>, lenient: bool, n: nat)
    requires d in w.decls
    decreases n, 0
  {
    var file, decl := w.decls[d].file, w.decls[d].decl;
    if n == 0 then false
    else if steps == [] then true
    else
      match decl
      case Enum => lenient
      case Alias(ty) => TyHas(w, file, ty, steps, lenient, n - 1)
      case Interface(members, bases) =>
        if steps[0].Element? then lenient
        else if exists i :: IsFirst(members, steps[0].name, i) then MemberHas(w, file, members, steps, lenient, n - 1)
        else exists k :: 0 <= k < |bases| && BaseHas(w, file, bases[k], steps, lenient, n - 1)
  }

  ghost predicate BaseHas(w: World, file: string, base: Option<string>, steps: seq<Step>, lenient: bool, n: nat)
    decreases n, 1
  {
    if base.None? || DeclFor(w, file, base.value).None? then lenient
    else DeclHas(w, DeclFor(w, file, base.value).value, steps, lenient, n)
  }

  /** The first member of the name has the rest of the path. */
  ghost predicate MemberHas(w: World, file: string, members: seq<Field>, steps: seq<Step>, lenient: bool, n: nat)
    requires steps != [] && steps[0].Member?
    decreases n, 2
  {
    exists i :: IsFirst(members, steps[0].name, i) && FieldHas(w, file, members[i], steps, lenient, n)
  }

  lemma MemberHasFirst(w: World, file: string, members: seq<Field>, steps: seq<Step>, lenient: bool, n: nat)
    requires steps != [] && steps[0].Member?
    ensures var i := FieldIndex(members, steps[0].name);
            && ((exists j :: IsFirst(members, steps[0].name, j)) <==> i != -1)
            && (MemberHas(w, file, members, steps, lenient, n) <==>
                  i != -1 && FieldHas(w, file, members[i], steps, lenient, n))
  {
    hide FieldHas;
    var i := FieldIndex(members, steps[0].name);
    assert forall j :: IsFirst(members, steps[0].name, j) ==> i == j;
  }

  lemma MemberHasTwice(w: World, file: string, members: seq<Field>, steps: seq<Step>, m: nat, n: nat)
    requires steps != [] && steps[0].Member?
    ensures var i := FieldIndex(members, steps[0].name);
            && ((exists j :: IsFirst(members, steps[0].name, j)) <==> i != -1)
            && (forall lenient, k :: k == m || k == n ==>
                  (MemberHas(w, file, members, steps, lenient, k) <==>
                     i != -1 && FieldHas(w, file, members[i], steps, lenient, k)))
  {
    hide MemberHas, FieldHas;
    forall lenient, k: nat | k == m || k == n
      ensures MemberHas(w, file, members, steps, lenient, k) <==>
              var i := FieldIndex(members, steps[0].name);
              i != -1 && FieldHas(w, file, members[i], steps, lenient, k)
    {
      MemberHasFirst(w, file, members, steps, lenient, k);
    }
    MemberHasFirst(w, file, members, steps, true, m);
  }

  ghost predicate FieldHas(w: World, file: string, field: Field, steps: seq<Step>, lenient: bool, n: nat)
    requires field.Property? && steps != []
    decreases n, 1
  {
    if |steps| == 1 then true
    else if field.ty.None? then lenient
    else TyHas(w, file, field.ty.value, steps[1..], lenient, n)
  }

  ghost predicate TyHas(w: World, file: string, t: Ty, steps: seq<Step>, lenient: bool, n: nat)
    decreases n, 0
  {
    if n == 0 then false
    else if steps == [] then true
    else
      match t
      case Literal(members) =>
        if steps[0].Element? then lenient else MemberHas(w, file, members, steps, lenient, n - 1)
      case Parenthesized(inner) => TyHas(w, file, inner, steps, lenient, n - 1)
      case Intersection(parts) => exists k :: 0 <= k < |parts| && TyHas(w, file, parts[k], steps, lenient, n - 1)
      case Union(parts) =>
        if lenient then exists k :: 0 <= k < |parts| && TyHas(w, file, parts[k], steps, lenient, n - 1)
        else forall k :: 0 <= k < |parts| ==> TyHas(w, file, parts[k], steps, lenient, n - 1)
      case ArrayOf(element) =>
        if steps[0].Element? then TyHas(w, file, element, steps[1..], lenient, n - 1) else lenient
      case Operator(operand) => TyHas(w, file, operand, steps, lenient, n - 1)
      case Indexed(target, index) =>
        if index.None? then lenient else TyHas(w, file, target, [Member(index.value)] + steps, lenient, n - 1)
      case Reference(name, qualified, args) =>
        if name in WRAPPERS && args != [] then TyHas(w, file, args[0], steps, lenient, n - 1)
        else if (name == "Array" || name == "ReadonlyArray") && args != [] then
          if steps[0].Element? then TyHas(w, file, args[0], steps[1..], lenient, n - 1) else lenient
        else if qualified || DeclFor(w, file, name).None? then lenient
        else DeclHas(w, DeclFor(w, file, name).value, steps, lenient, n - 1)
      case Opaque => lenient
  }

  /** The declared type certainly has the path. */
  ghost predicate MustHave(w: World, d: string, steps: seq<Step>)
    requires d in w.decls
  {
    exists n :: DeclHas(w, d, steps, false, n)
  }

  /** The declared type has the path, as far as the walk can see. */
  ghost predicate MayHave(w: World, d: string, steps: seq<Step>)
    requires d in w.decls
  {
    exists n :: DeclHas(w, d, steps, true, n)
  }

  /** A union type as the parser builds it has at least one part. */
  predicate Proper(t: Ty) {
    match t
    case Literal(members) => forall f :: f in members && f.Property? && f.ty.Some? ==> Proper(f.ty.value)
    case Parenthesized(inner) => Proper(inner)
    case Intersection(parts) => forall p :: p in parts ==> Proper(p)
    case Union(parts) => parts != [] && forall p :: p in parts ==> Proper(p)
    case ArrayOf(element) => Proper(element)
    case Operator(operand) => Proper(operand)
    case Indexed(target, _) => Proper(target)
    case Reference(_, _, args) => forall p :: p in args ==> Proper(p)
    case Opaque => true
  }

  ghost predicate UnionsNonEmpty(w: World) {
    forall d :: d in w.decls ==>
      match w.decls[d].decl
      case Interface(members, _) => forall f :: f in members && f.Property? && f.ty.Some? ==> Proper(f.ty.value)
      case Alias(ty) => Proper(ty)
      case Enum => true
  }

  // ----- the walk's answer against that meaning -----

  /** An answer reached with some fuel, against derivations up to that size and up to another. */
  ghost predicate Agrees(p: Presence, cut: bool, must: bool, mustWithin: bool, may: bool, mayWithin: bool) {
    && (p == Found ==> must)
    && (p == Missing ==> !mayWithin)
    && (!cut && mustWithin ==> p == Found)
    && (!cut && p != Missing ==> may)
  }

  ghost predicate DeclAgrees(w: World, d: string, steps: seq<Step>, a: Answer, fuel: nat, m: nat)
    requires d in w.decls
  {
    a.Answer? ==> Agrees(a.presence, a.cut, DeclHas(w, d, steps, false, fuel), DeclHas(w, d, steps, false, m),
                         DeclHas(w, d, steps, true, fuel), DeclHas(w, d, steps, true, m))
  }

  ghost predicate FieldAgrees(w: World, file: string, f: Field, steps: seq<Step>, a: Answer, fuel: nat, m: nat)
    requires f.Property? && steps != []
  {
    a.Answer? ==> Agrees(a.presence, a.cut, FieldHas(w, file, f, steps, false, fuel),
      FieldHas(w, file, f, steps, false, m),
                         FieldHas(w, file, f, steps, true, fuel), FieldHas(w, file, f, steps, true, m))
  }

  ghost predicate BaseAgrees(w: World, file: string, b: Option<string>, steps: seq<Step>, p: Presence, cut: bool,
                             fuel: nat, m: nat) {
    Agrees(p, cut, BaseHas(w, file, b, steps, false, fuel), BaseHas(w, file, b, steps, false, m),
           BaseHas(w, file, b, steps, true, fuel), BaseHas(w, file, b, steps, true, m))
  }

  ghost predicate TyAgrees(w: World, file: string, t: Ty, steps: seq<Step>, p: Presence, cut: bool, fuel: nat, m: nat) {
    Agrees(p, cut, TyHas(w, file, t, steps, false, fuel), TyHas(w, file, t, steps, false, m),
           TyHas(w, file, t, steps, true, fuel), TyHas(w, file, t, steps, true, m))
  }

  function Pred(m: nat): nat { if m == 0 then 0 else m - 1 }

  lemma CombineMeaning(results: seq<Presence>)
    ensures Combine(results) == Found <==> exists k :: 0 <= k < |results| && results[k] == Found
    ensures Combine(results) == Missing <==> forall k :: 0 <= k < |results| ==> results[k] == Missing
    ensures CombineUnion(results) == Found <==> forall k :: 0 <= k < |results| ==> results[k] == Found
    ensures CombineUnion(results) == Missing ==> forall k :: 0 <= k < |results| ==> results[k] == Missing
    ensures results != [] && (forall k :: 0 <= k < |results| ==> results[k] == Missing) ==>
            CombineUnion(results) == Missing
  {
    forall k | 0 <= k < |results| ensures results[k] in results {}
    if Combine(results) == Missing {
      forall k | 0 <= k < |results| ensures results[k] == Missing { assert results[k] in results; }
    }
    if results != [] && (forall k :: 0 <= k < |results| ==> results[k] == Missing) {
      assert results[0] in results;
    }
  }

  lemma {:induction false} WalkDecl(w: World, d: string, steps: seq<Step>, seen: Seen, fuel: nat, m: nat)
    requires d in w.decls && UnionsNonEmpty(w)
    ensures DeclAgrees(w, d, steps, LookupDecl(w, d, steps, seen, fuel), fuel, m)
    decreases fuel, 0, 0
  {
    hide LookupTy, LookupBases, LookupField, Combine, TyHas, BaseHas, FieldHas, MemberHas;
    if fuel > 0 && steps != [] && (d, |steps|) !in seen {
      var file, seen' := w.decls[d].file, seen + {(d, |steps|)};
      match w.decls[d].decl {
        case Enum =>
        case Alias(ty) => WalkTy(w, file, ty, steps, seen', fuel - 1, Pred(m));
        case Interface(members, bases) =>
          if steps[0].Member? {
            var i := FieldIndex(members, steps[0].name);
            MemberHasTwice(w, file, members, steps, fuel - 1, Pred(m));
            if i != -1 {
              assert members[i] in members;
              WalkField(w, file, members[i], steps, seen', fuel - 1, Pred(m));
            } else if bases != [] {
              WalkBases(w, file, bases, steps, seen', fuel - 1, Pred(m));
              var a := LookupBases(w, file, bases, steps, seen', fuel - 1);
              if a.Answers? { CombineMeaning(a.results); }
            }
          }
      }
    }
  }

  lemma WalkField(w: World, file: string, field: Field, steps: seq<Step>, seen: Seen, fuel: nat, m: nat)
    requires field.Property? && steps != [] && (field.ty.Some? ==> Proper(field.ty.value)) && UnionsNonEmpty(w)
    ensures FieldAgrees(w, file, field, steps, LookupField(w, file, field, steps, seen, fuel), fuel, m)
    decreases fuel, 1, 0
  {
    if |steps| > 1 && field.ty.Some? { WalkTy(w, file, field.ty.value, steps[1..], seen, fuel, m); }
  }

  lemma {:induction false} WalkBases(w: World, file: string, bases: seq<Option<string>>, steps: seq<Step>, seen: Seen,
                                     fuel: nat, m: nat)
    requires UnionsNonEmpty(w)
    ensures var a := LookupBases(w, file, bases, steps, seen, fuel);
            a.Answers? ==> forall k :: 0 <= k < |bases| ==>
              BaseAgrees(w, file, bases[k], steps, a.results[k], a.cut, fuel, m)
    decreases fuel, 1, |bases|
  {
    if bases != [] {
      var d := if bases[0].None? then None else DeclFor(w, file, bases[0].value);
      if d.Some? { WalkDecl(w, d.value, steps, seen, fuel, m); }
      var first := if d.None? then Answer(Unknown, seen, false) else LookupDecl(w, d.value, steps, seen, fuel);
      if first.Answer? {
        WalkBases(w, file, bases[1..], steps, first.seen, fuel, m);
        var rest := LookupBases(w, file, bases[1..], steps, first.seen, fuel);
        if rest.Answers? {
          var a := LookupBases(w, file, bases, steps, seen, fuel);
          assert a.results == [first.presence] + rest.results;
          forall k | 0 <= k < |bases| ensures BaseAgrees(w, file, bases[k], steps, a.results[k], a.cut, fuel, m) {
            if k > 0 {
              assert BaseAgrees(w, file, bases[1..][k - 1], steps, rest.results[k - 1], rest.cut, fuel, m);
            }
          }
        }
      }
    }
  }

  lemma {:induction false} WalkEach(w: World, file: string, ts: seq<Ty>, steps: seq<Step>, seen: Seen, fuel: nat,
                                    m: nat)
    requires UnionsNonEmpty(w) && forall k :: 0 <= k < |ts| ==> Proper(ts[k])
    ensures var a := LookupEach(w, file, ts, steps, seen, fuel);
            a.Answers? ==> forall k :: 0 <= k < |ts| ==> TyAgrees(w, file, ts[k], steps, a.results[k], a.cut, fuel, m)
    decreases fuel, 1, |ts|
  {
    if ts != [] {
      WalkTy(w, file, ts[0], steps, seen, fuel, m);
      var first := LookupTy(w, file, ts[0], steps, seen, fuel);
      if first.Answer? {
        WalkEach(w, file, ts[1..], steps, first.seen, fuel, m);
        var rest := LookupEach(w, file, ts[1..], steps, first.seen, fuel);
        if rest.Answers? {
          var a := LookupEach(w, file, ts, steps, seen, fuel);
          assert a.results == [first.presence] + rest.results;
          forall k | 0 <= k < |ts| ensures TyAgrees(w, file, ts[k], steps, a.results[k], a.cut, fuel, m) {
            if k > 0 {
              assert TyAgrees(w, file, ts[1..][k - 1], steps, rest.results[k - 1], rest.cut, fuel, m);
            }
          }
        }
      }
    }
  }

  lemma {:induction false} WalkTy(w: World, file: string, t: Ty, steps: seq<Step>, seen: Seen, fuel: nat, m: nat)
    requires Proper(t) && UnionsNonEmpty(w)
    ensures var a := LookupTy(w, file, t, steps, seen, fuel);
            a.Answer? ==> TyAgrees(w, file, t, steps, a.presence, a.cut, fuel, m)
    decreases fuel, 0, 0
  {
    if fuel > 0 && steps != [] {
      match t {
        case Literal(members) => WalkLiteral(w, file, members, steps, seen, fuel, m);
        case Parenthesized(inner) => WalkTy(w, file, inner, steps, seen, fuel - 1, Pred(m));
        case Intersection(parts) => WalkParts(w, file, t, parts, steps, seen, fuel, m);
        case Union(parts) => WalkParts(w, file, t, parts, steps, seen, fuel, m);
        case ArrayOf(element) =>
          if steps[0].Element? { WalkTy(w, file, element, steps[1..], seen, fuel - 1, Pred(m)); }
        case Operator(operand) => WalkTy(w, file, operand, steps, seen, fuel - 1, Pred(m));
        case Indexed(target, index) =>
          if index.Some? { WalkTy(w, file, target, [Member(index.value)] + steps, seen, fuel - 1, Pred(m)); }
        case Reference(name, qualified, args) => WalkReference(w, file, name, qualified, args, steps, seen, fuel, m);
        case Opaque =>
      }
    }
  }

  lemma LiteralHas(w: World, file: string, members: seq<Field>, steps: seq<Step>, lenient: bool, n: nat)
    requires steps != []
    ensures TyHas(w, file, Literal(members), steps, lenient, n) <==>
            n > 0 && if steps[0].Element? then lenient else MemberHas(w, file, members, steps, lenient, n - 1)
  {
  }

  lemma WalkLiteral(w: World, file: string, members: seq<Field>, steps: seq<Step>, seen: Seen, fuel: nat, m: nat)
    requires Proper(Literal(members)) && UnionsNonEmpty(w) && fuel > 0 && steps != []
    ensures var t := Literal(members);
            var a := LookupTy(w, file, t, steps, seen, fuel);
            a.Answer? ==> TyAgrees(w, file, t, steps, a.presence, a.cut, fuel, m)
    decreases fuel - 1, 2, 0
  {
    forall lenient, n: nat { LiteralHas(w, file, members, steps, lenient, n); }
    hide LookupField, FieldHas, MemberHas, TyHas;
    if steps[0].Member? {
      var i := FieldIndex(members, steps[0].name);
      MemberHasTwice(w, file, members, steps, fuel - 1, Pred(m));
      if i != -1 {
        assert members[i] in members;
        WalkField(w, file, members[i], steps, seen, fuel - 1, Pred(m));
      }
    }
  }

  lemma IntersectionHas(w: World, file: string, parts: seq<Ty>, steps: seq<Step>, lenient: bool, n: nat)
    requires steps != []
    ensures TyHas(w, file, Intersection(parts), steps, lenient, n) <==>
            n > 0 && exists k :: 0 <= k < |parts| && TyHas(w, file, parts[k], steps, lenient, n - 1)
  {
  }

  lemma UnionHas(w: World, file: string, parts: seq<Ty>, steps: seq<Step>, lenient: bool, n: nat)
    requires steps != []
    ensures TyHas(w, file, Union(parts), steps, lenient, n) <==>
            n > 0 && if lenient then exists k :: 0 <= k < |parts| && TyHas(w, file, parts[k], steps, lenient, n - 1)
                     else forall k :: 0 <= k < |parts| ==> TyHas(w, file, parts[k], steps, lenient, n - 1)
  {
  }

  /** What a fork answers, from what its parts answer. */
  lemma LookupParts(w: World, file: string, t: Ty, parts: seq<Ty>, steps: seq<Step>, seen: Seen, n: nat)
    requires steps != [] && (t == Intersection(parts) || t == Union(parts))
    ensures var a, each := LookupTy(w, file, t, steps, seen, n + 1), LookupEach(w, file, parts, steps, seen, n);
            && (a.Answer? <==> each.Answers?)
            && (a.Answer? ==> a.seen == each.seen && a.cut == each.cut
                              && a.presence == if t.Union? then CombineUnion(each.results) else Combine(each.results))
  {
  }

  ghost predicate EachAgrees(w: World, file: string, parts: seq<Ty>, steps: seq<Step>, results: seq<Presence>,
                             cut: bool, fuel: nat, m: nat) {
    |results| == |parts| && forall k :: 0 <= k < |parts| ==>
      TyAgrees(w, file, parts[k], steps, results[k], cut, fuel, m)
  }

  lemma IntersectionAgrees(w: World, file: string, parts: seq<Ty>, steps: seq<Step>, results: seq<Presence>, cut: bool,
                           fuel: nat, m: nat)
    requires fuel > 0 && steps != [] && EachAgrees(w, file, parts, steps, results, cut, fuel - 1, Pred(m))
    ensures TyAgrees(w, file, Intersection(parts), steps, Combine(results), cut, fuel, m)
  {
    CombineMeaning(results);
    IntersectionHas(w, file, parts, steps, false, fuel);
    IntersectionHas(w, file, parts, steps, true, fuel);
    IntersectionHas(w, file, parts, steps, false, m);
    IntersectionHas(w, file, parts, steps, true, m);
    hide TyHas, Combine, CombineUnion;
  }

  lemma UnionAgrees(w: World, file: string, parts: seq<Ty>, steps: seq<Step>, results: seq<Presence>, cut: bool,
                    fuel: nat, m: nat)
    requires fuel > 0 && steps != [] && parts != [] &&
             EachAgrees(w, file, parts, steps, results, cut, fuel - 1, Pred(m))
    ensures TyAgrees(w, file, Union(parts), steps, CombineUnion(results), cut, fuel, m)
  {
    CombineMeaning(results);
    UnionHas(w, file, parts, steps, false, fuel);
    UnionHas(w, file, parts, steps, true, fuel);
    UnionHas(w, file, parts, steps, false, m);
    UnionHas(w, file, parts, steps, true, m);
    hide TyHas, Combine, CombineUnion;
  }

  lemma {:induction false} WalkParts(w: World, file: string, t: Ty, parts: seq<Ty>, steps: seq<Step>, seen: Seen,
                                     fuel: nat, m: nat)
    requires Proper(t) && UnionsNonEmpty(w) && fuel > 0 && steps != [] &&
             (t == Intersection(parts) || t == Union(parts))
    ensures var a := LookupTy(w, file, t, steps, seen, fuel);
            a.Answer? ==> TyAgrees(w, file, t, steps, a.presence, a.cut, fuel, m)
    decreases fuel - 1, 2, 0
  {
    hide UnionsNonEmpty, LookupTy, LookupEach, TyAgrees, Combine, CombineUnion;
    WalkEach(w, file, parts, steps, seen, fuel - 1, Pred(m));
    var each := LookupEach(w, file, parts, steps, seen, fuel - 1);
    LookupParts(w, file, t, parts, steps, seen, fuel - 1);
    if each.Answers? {
      assert EachAgrees(w, file, parts, steps, each.results, each.cut, fuel - 1, Pred(m));
      if t.Union? {
        UnionAgrees(w, file, parts, steps, each.results, each.cut, fuel, m);
      } else {
        IntersectionAgrees(w, file, parts, steps, each.results, each.cut, fuel, m);
      }
    }
  }

  lemma {:induction false} WalkReference(w: World, file: string, name: string, qualified: bool, args: seq<Ty>,
                                         steps: seq<Step>, seen: Seen, fuel: nat, m: nat)
    requires Proper(Reference(name, qualified, args)) && UnionsNonEmpty(w) && fuel > 0 && steps != []
    ensures var t := Reference(name, qualified, args);
            var a := LookupTy(w, file, t, steps, seen, fuel);
            a.Answer? ==> TyAgrees(w, file, t, steps, a.presence, a.cut, fuel, m)
    decreases fuel - 1, 2, 0
  {
    if name in WRAPPERS && args != [] {
      WalkTy(w, file, args[0], steps, seen, fuel - 1, Pred(m));
    } else if (name == "Array" || name == "ReadonlyArray") && args != [] {
      if steps[0].Element? { WalkTy(w, file, args[0], steps[1..], seen, fuel - 1, Pred(m)); }
    } else if !qualified && DeclFor(w, file, name).Some? {
      WalkDecl(w, DeclFor(w, file, name).value, steps, seen, fuel - 1, Pred(m));
    }
  }

  /** Whatever the recursion in the types and whatever the shared visited set has cut off:
      "found" means the type must have the path, "missing" means it cannot. Where the guard never
      answered, both hold in the other direction too. */
  lemma LookupMeaning(w: World, d: string, steps: seq<Step>, fuel: nat)
    requires d in w.decls && UnionsNonEmpty(w)
    ensures var a := LookupDecl(w, d, steps, {}, fuel);
            a.Answer? ==>
              && (a.presence == Found ==> MustHave(w, d, steps))
              && (a.presence == Missing ==> !MayHave(w, d, steps))
              && (!a.cut ==> (MustHave(w, d, steps) <==> a.presence == Found))
              && (!a.cut ==> (MayHave(w, d, steps) <==> a.presence != Missing))
  {
    var a := LookupDecl(w, d, steps, {}, fuel);
    if a.Answer? {
      forall m: nat ensures DeclAgrees(w, d, steps, a, fuel, m) { WalkDecl(w, d, steps, {}, fuel, m); }
      assert DeclAgrees(w, d, steps, a, fuel, 0);
      if MustHave(w, d, steps) {
        var m :| DeclHas(w, d, steps, false, m);
        assert DeclAgrees(w, d, steps, a, fuel, m);
      }
      if MayHave(w, d, steps) {
        var m :| DeclHas(w, d, steps, true, m);
        assert DeclAgrees(w, d, steps, a, fuel, m);
      }
    }
  }
}
