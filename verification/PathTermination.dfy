/** When `lookupPath` returns. Its path shrinks at members and elements and its visited set stops
    cycles of one length, but an indexed access puts a step back. So it returns wherever its paths stay
    short, and they do whenever no cycle of references puts back more steps than it takes. */
module PathTermination {
  import opened Basics
  import opened Digraph
  import opened PathLookup
  import opened PathVisits

  // ----- more recursion depth never changes an answer -----

  lemma {:induction false} MoreFuelDecl(w: World, d: string, steps: seq<Step>, seen: Seen, m: nat, n: nat)
    requires d in w.decls && m <= n && LookupDecl(w, d, steps, seen, m).Answer?
    ensures LookupDecl(w, d, steps, seen, n) == LookupDecl(w, d, steps, seen, m)
    decreases m, 0, 0
  {
    if steps != [] && !w.decls[d].decl.Enum? && (d, |steps|) !in seen {
      var file, seen' := w.decls[d].file, seen + {(d, |steps|)};
      match w.decls[d].decl {
        case Enum =>
        case Alias(ty) => MoreFuelTy(w, file, ty, steps, seen', m - 1, n - 1);
        case Interface(members, bases) =>
          if steps[0].Member? {
            var i := FieldIndex(members, steps[0].name);
            if i != -1 {
              MoreFuelField(w, file, members[i], steps, seen', m - 1, n - 1);
            } else if bases != [] {
              MoreFuelBases(w, file, bases, steps, seen', m - 1, n - 1);
            }
          }
      }
    }
  }

  lemma MoreFuelField(w: World, file: string, f: Field, steps: seq<Step>, seen: Seen, m: nat, n: nat)
    requires f.Property? && steps != [] && m <= n && LookupField(w, file, f, steps, seen, m).Answer?
    ensures LookupField(w, file, f, steps, seen, n) == LookupField(w, file, f, steps, seen, m)
    decreases m, 1, 0
  {
    if |steps| > 1 && f.ty.Some? { MoreFuelTy(w, file, f.ty.value, steps[1..], seen, m, n); }
  }

  lemma {:induction false} MoreFuelBases(w: World, file: string, bases: seq<Option<string>>, steps: seq<Step>,
                                         seen: Seen, m: nat, n: nat)
    requires m <= n && LookupBases(w, file, bases, steps, seen, m).Answers?
    ensures LookupBases(w, file, bases, steps, seen, n) == LookupBases(w, file, bases, steps, seen, m)
    decreases m, 1, |bases|
  {
    if bases != [] {
      var d := if bases[0].None? then None else DeclFor(w, file, bases[0].value);
      if d.Some? { MoreFuelDecl(w, d.value, steps, seen, m, n); }
      var first := if d.None? then Answer(Unknown, seen, false) else LookupDecl(w, d.value, steps, seen, m);
      MoreFuelBases(w, file, bases[1..], steps, first.seen, m, n);
    }
  }

  lemma {:induction false} MoreFuelEach(w: World, file: string, ts: seq<Ty>, steps: seq<Step>, seen: Seen, m: nat,
                                        n: nat)
    requires m <= n && LookupEach(w, file, ts, steps, seen, m).Answers?
    ensures LookupEach(w, file, ts, steps, seen, n) == LookupEach(w, file, ts, steps, seen, m)
    decreases m, 1, |ts|
  {
    if ts != [] {
      MoreFuelTy(w, file, ts[0], steps, seen, m, n);
      MoreFuelEach(w, file, ts[1..], steps, LookupTy(w, file, ts[0], steps, seen, m).seen, m, n);
    }
  }

  lemma {:induction false} MoreFuelTy(w: World, file: string, t: Ty, steps: seq<Step>, seen: Seen, m: nat, n: nat)
    requires m <= n && LookupTy(w, file, t, steps, seen, m).Answer?
    ensures LookupTy(w, file, t, steps, seen, n) == LookupTy(w, file, t, steps, seen, m)
    decreases m, 0, 0
  {
    if steps != [] {
      match t {
        case Literal(members) =>
          if steps[0].Member? {
            var i := FieldIndex(members, steps[0].name);
            if i != -1 { MoreFuelField(w, file, members[i], steps, seen, m - 1, n - 1); }
          }
        case Parenthesized(inner) => MoreFuelTy(w, file, inner, steps, seen, m - 1, n - 1);
        case Intersection(parts) => MoreFuelEach(w, file, parts, steps, seen, m - 1, n - 1);
        case Union(parts) => MoreFuelEach(w, file, parts, steps, seen, m - 1, n - 1);
        case ArrayOf(element) =>
          if steps[0].Element? { MoreFuelTy(w, file, element, steps[1..], seen, m - 1, n - 1); }
        case Operator(operand) => MoreFuelTy(w, file, operand, steps, seen, m - 1, n - 1);
        case Indexed(target, index) =>
          if index.Some? { MoreFuelTy(w, file, target, [Member(index.value)] + steps, seen, m - 1, n - 1); }
        case Reference(name, qualified, args) =>
          if name in WRAPPERS && args != [] {
            MoreFuelTy(w, file, args[0], steps, seen, m - 1, n - 1);
          } else if (name == "Array" || name == "ReadonlyArray") && args != [] {
            if steps[0].Element? { MoreFuelTy(w, file, args[0], steps[1..], seen, m - 1, n - 1); }
          } else if !qualified && DeclFor(w, file, name).Some? {
            MoreFuelDecl(w, DeclFor(w, file, name).value, steps, seen, m - 1, n - 1);
          }
        case Opaque =>
      }
    }
  }

  // ----- by how much a reference makes the path grow -----

  /** The walk can follow a reference to e in t, and on the way to it the path grows by `growth`: an
      indexed access puts a step back, a member or an element takes one. */
  ghost predicate Refers(w: World, file: string, t: Ty, e: string, growth: int) {
    match t
    case Literal(members) => MembersRefer(w, file, members, e, growth + 1)
    case Parenthesized(inner) => Refers(w, file, inner, e, growth)
    case Intersection(parts) => exists i :: 0 <= i < |parts| && Refers(w, file, parts[i], e, growth)
    case Union(parts) => exists i :: 0 <= i < |parts| && Refers(w, file, parts[i], e, growth)
    case ArrayOf(element) => Refers(w, file, element, e, growth + 1)
    case Operator(operand) => Refers(w, file, operand, e, growth)
    case Indexed(target, index) => index.Some? && Refers(w, file, target, e, growth - 1)
    case Reference(name, qualified, args) =>
      if name in WRAPPERS && args != [] then Refers(w, file, args[0], e, growth)
      else if (name == "Array" || name == "ReadonlyArray") && args != [] then Refers(w, file, args[0], e, growth + 1)
      else !qualified && DeclFor(w, file, name) == Some(e) && growth == 0
    case Opaque => false
  }

  ghost predicate MembersRefer(w: World, file: string, members: seq<Field>, e: string, growth: int) {
    exists i :: 0 <= i < |members| && members[i].Property? && members[i].ty.Some? &&
      Refers(w, file, members[i].ty.value, e, growth)
  }

  ghost predicate DeclRefers(w: World, d: string, e: string, growth: int) {
    d in w.decls && e in w.decls &&
    match w.decls[d].decl
    case Enum => false
    case Alias(ty) => Refers(w, w.decls[d].file, ty, e, growth)
    case Interface(members, bases) =>
      || MembersRefer(w, w.decls[d].file, members, e, growth + 1)
      || (growth == 0 &&
          exists i :: 0 <= i < |bases| && bases[i].Some? && DeclFor(w, w.decls[d].file, bases[i].value) == Some(e))
  }

  /** One reference on a walk from declaration to declaration. */
  datatype Hop = Hop(to: string, growth: int)

  ghost predicate Walk(w: World, d: string, hops: seq<Hop>)
    decreases |hops|
  {
    hops == [] || (DeclRefers(w, d, hops[0].to, hops[0].growth) && Walk(w, hops[0].to, hops[1..]))
  }

  function End(d: string, hops: seq<Hop>): string {
    if hops == [] then d else hops[|hops| - 1].to
  }

  function Growth(hops: seq<Hop>): int {
    if hops == [] then 0 else hops[0].growth + Growth(hops[1..])
  }

  /** No cycle of references that can be reached from d makes the path grow. */
  ghost predicate NoGrowingCycle(w: World, d: string) {
    forall there, around :: Walk(w, d, there) && Walk(w, End(d, there), around) &&
      End(End(d, there), around) == End(d, there)
      ==> Growth(around) <= 0
  }

  lemma {:induction false} WalkConcat(w: World, d: string, a: seq<Hop>, b: seq<Hop>)
    requires Walk(w, d, a)
    ensures Walk(w, d, a + b) <==> Walk(w, End(d, a), b)
    ensures End(d, a + b) == End(End(d, a), b) && Growth(a + b) == Growth(a) + Growth(b)
    decreases |a|
  {
    if a == [] {
      assert a + b == b;
    } else {
      assert (a + b)[1..] == a[1..] + b;
      assert End(a[0].to, a[1..]) == End(d, a);
      WalkConcat(w, a[0].to, a[1..], b);
      EndConcat(a, b);
    }
  }

  lemma EndConcat(a: seq<Hop>, b: seq<Hop>)
    requires a != []
    ensures forall d :: End(d, a + b) == End(End(d, a), b)
  {
  }

  lemma {:induction false} WalkSplit(w: World, d: string, hops: seq<Hop>, i: nat)
    requires i <= |hops| && Walk(w, d, hops)
    ensures Walk(w, d, hops[..i]) && Walk(w, End(d, hops[..i]), hops[i..])
    ensures Growth(hops) == Growth(hops[..i]) + Growth(hops[i..]) && End(d, hops) == End(End(d, hops[..i]), hops[i..])
    decreases |hops|
  {
    if i == 0 {
      assert hops[..0] == [] && hops[0..] == hops;
    } else {
      WalkSplit(w, hops[0].to, hops[1..], i - 1);
      assert hops[1..][..i - 1] == hops[..i][1..] && hops[1..][i - 1..] == hops[i..];
      assert End(hops[0].to, hops[..i][1..]) == End(d, hops[..i]);
    }
  }

  // ----- walks grow the path by a bounded amount -----

  ghost predicate Within(hops: seq<Hop>, s: set<string>) {
    forall i :: 0 <= i < |hops| ==> hops[i].to in s
  }

  /** Every declaration met on the walk lies in s, and d too; each reference grows the path by at most
      m. Then the whole walk does by at most m for each declaration of s: a walk that comes back to its
      start has not grown by then. */
  lemma {:induction false} GrowthBounded(w: World, root: string, there: seq<Hop>, d: string, hops: seq<Hop>,
                                         s: set<string>, m: nat)
    requires NoGrowingCycle(w, root) && Walk(w, root, there) && End(root, there) == d
    requires Walk(w, d, hops) && d in s && Within(hops, s)
    requires forall i :: 0 <= i < |hops| ==> hops[i].growth <= m
    ensures Growth(hops) <= |s| * m
    decreases |s|, |hops|
  {
    hide NoGrowingCycle, Walk;
    TakeOut(s, d);
    if i: nat :| i < |hops| && hops[i].to == d {
      WalkSplit(w, d, hops, i + 1);
      CycleNotGrowing(w, root, there, d, hops[..i + 1]);
      GrowthBounded(w, root, there, d, hops[i + 1..], s, m);
    } else if hops == [] {
      assert |s| * m >= 0;
    } else {
      NextHop(w, root, there, d, hops);
      assert Within(hops[1..], s - {d}) by { assert forall i :: 0 <= i < |hops[1..]| ==> hops[1..][i] == hops[i + 1]; }
      GrowthBounded(w, root, there + [hops[0]], hops[0].to, hops[1..], s - {d}, m);
      Distribute(|s|, m);
    }
  }

  lemma TakeOut(s: set<string>, d: string)
    requires d in s
    ensures |s - {d}| == |s| - 1
  {
    assert s == (s - {d}) + {d};
  }

  lemma Distribute(n: nat, m: nat)
    requires n > 0
    ensures (n - 1) * m + m == n * m
  {
  }

  lemma CycleNotGrowing(w: World, root: string, there: seq<Hop>, d: string, around: seq<Hop>)
    requires NoGrowingCycle(w, root) && Walk(w, root, there) && End(root, there) == d
    requires Walk(w, d, around) && End(d, around) == d
    ensures Growth(around) <= 0
  {
  }

  lemma NextHop(w: World, root: string, there: seq<Hop>, d: string, hops: seq<Hop>)
    requires Walk(w, root, there) && End(root, there) == d && Walk(w, d, hops) && hops != []
    ensures Walk(w, root, there + [hops[0]]) && End(root, there + [hops[0]]) == hops[0].to &&
            Walk(w, hops[0].to, hops[1..])
  {
    WalkConcat(w, root, there, [hops[0]]);
  }

  // ----- references grow the path by a bounded amount -----

  ghost function Depth(t: Ty): nat {
    match t
    case Literal(members) => MembersDepth(members)
    case Parenthesized(inner) => Depth(inner)
    case Intersection(parts) => PartsDepth(parts)
    case Union(parts) => PartsDepth(parts)
    case ArrayOf(element) => Depth(element)
    case Operator(operand) => Depth(operand)
    case Indexed(target, _) => Depth(target) + 1
    case Reference(_, _, args) => if args == [] then 0 else Depth(args[0])
    case Opaque => 0
  }

  ghost function PartsDepth(ts: seq<Ty>): (n: nat)
    ensures forall i :: 0 <= i < |ts| ==> Depth(ts[i]) <= n
  {
    if ts == [] then 0 else Max(Depth(ts[0]), PartsDepth(ts[1..]))
  }

  ghost function MembersDepth(fs: seq<Field>): (n: nat)
    ensures forall i :: 0 <= i < |fs| && fs[i].Property? && fs[i].ty.Some? ==> Depth(fs[i].ty.value) <= n
  {
    if fs == [] then 0
    else Max(if fs[0].Property? && fs[0].ty.Some? then Depth(fs[0].ty.value) else 0, MembersDepth(fs[1..]))
  }

  lemma {:induction false} ReferGrowth(w: World, file: string, t: Ty, e: string, growth: int)
    requires Refers(w, file, t, e, growth)
    ensures growth <= Depth(t)
    decreases t
  {
    match t {
      case Literal(members) =>
        var i :| 0 <= i < |members| && members[i].Property? && members[i].ty.Some? &&
            Refers(w, file, members[i].ty.value, e, growth + 1);
        ReferGrowth(w, file, members[i].ty.value, e, growth + 1);
      case Parenthesized(inner) => ReferGrowth(w, file, inner, e, growth);
      case Intersection(parts) =>
        var i :| 0 <= i < |parts| && Refers(w, file, parts[i], e, growth);
        ReferGrowth(w, file, parts[i], e, growth);
      case Union(parts) =>
        var i :| 0 <= i < |parts| && Refers(w, file, parts[i], e, growth);
        ReferGrowth(w, file, parts[i], e, growth);
      case ArrayOf(element) => ReferGrowth(w, file, element, e, growth + 1);
      case Operator(operand) => ReferGrowth(w, file, operand, e, growth);
      case Indexed(target, _) => ReferGrowth(w, file, target, e, growth - 1);
      case Reference(name, qualified, args) =>
        if name in WRAPPERS && args != [] {
          ReferGrowth(w, file, args[0], e, growth);
        } else if (name == "Array" || name == "ReadonlyArray") && args != [] {
          ReferGrowth(w, file, args[0], e, growth + 1);
        }
    }
  }

  ghost function DeclDepth(decl: Decl): nat {
    match decl
    case Enum => 0
    case Alias(ty) => Depth(ty)
    case Interface(members, _) => MembersDepth(members)
  }

  /** The deepest indexed access of any declaration of s. */
  ghost function WorldDepth(w: World, s: set<string>): (n: nat)
    requires s <= w.decls.Keys
    ensures forall d :: d in s ==> DeclDepth(w.decls[d].decl) <= n
  {
    if s == {} then 0
    else
      var d :| d in s;
      assert forall e :: e in s ==> e == d || e in s - {d};
      Max(DeclDepth(w.decls[d].decl), WorldDepth(w, s - {d}))
  }

  lemma DeclGrowth(w: World, d: string, e: string, growth: int)
    requires DeclRefers(w, d, e, growth)
    ensures growth <= WorldDepth(w, w.decls.Keys)
  {
    match w.decls[d].decl {
      case Alias(ty) => ReferGrowth(w, w.decls[d].file, ty, e, growth);
      case Interface(members, bases) =>
        if MembersRefer(w, w.decls[d].file, members, e, growth + 1) {
          var i :| 0 <= i < |members| && members[i].Property? && members[i].ty.Some?
                   && Refers(w, w.decls[d].file, members[i].ty.value, e, growth + 1);
          ReferGrowth(w, w.decls[d].file, members[i].ty.value, e, growth + 1);
        }
    }
  }

  ghost function Bound(w: World): nat {
    |w.decls.Keys| * WorldDepth(w, w.decls.Keys)
  }

  lemma {:induction false} WalkKnown(w: World, d: string, hops: seq<Hop>)
    requires Walk(w, d, hops)
    ensures forall i :: 0 <= i < |hops| ==> hops[i].to in w.decls && hops[i].growth <= WorldDepth(w, w.decls.Keys)
    decreases |hops|
  {
    if hops != [] {
      DeclGrowth(w, d, hops[0].to, hops[0].growth);
      WalkKnown(w, hops[0].to, hops[1..]);
      forall i | 0 <= i < |hops| ensures hops[i].to in w.decls && hops[i].growth <= WorldDepth(w, w.decls.Keys) {
        if i > 0 { assert hops[i] == hops[1..][i - 1]; }
      }
    }
  }

  /** How much a walk from d can still make the path grow. */
  ghost predicate Grows(w: World, d: string, n: int) {
    exists hops :: Walk(w, d, hops) && Growth(hops) == n
  }

  ghost function Room(w: World, d: string): (n: nat)
    ensures n == 0 || Grows(w, d, n)
    ensures forall k: nat :: Grows(w, d, k) && k <= Bound(w) ==> k <= n
  {
    var s := set k: nat | 0 <= k <= Bound(w) && Grows(w, d, k);
    assert forall k: nat :: Grows(w, d, k) && k <= Bound(w) ==> k in s;
    if s == {} then 0 else MaxOf(s)
  }

  ghost function MaxOf(s: set<nat>): (m: nat)
    requires s != {}
    ensures m in s && forall k :: k in s ==> k <= m
  {
    var k :| k in s;
    var rest := s - {k};
    assert forall j :: j in s ==> j == k || j in rest;
    if rest == {} then k else Max(k, MaxOf(rest))
  }

  lemma Longest(seen: Seen) returns (n: nat)
    ensures forall e, k :: (e, k) in seen ==> k <= n
  {
    var lengths := set v | v in seen :: v.1;
    assert forall e, k :: (e, k) in seen ==> (e, k).1 in lengths;
    n := if lengths == {} then 0 else MaxOf(lengths);
  }

  ghost predicate Reaches(w: World, root: string, d: string) {
    exists hops :: Walk(w, root, hops) && End(root, hops) == d
  }

  /** Along a reference the path grows by no more than the room it leaves. */
  lemma RoomLeft(w: World, root: string, d: string, e: string, growth: int)
    requires NoGrowingCycle(w, root) && Reaches(w, root, d) && DeclRefers(w, d, e, growth)
    ensures Reaches(w, root, e) && growth + Room(w, e) <= Room(w, d)
  {
    hide NoGrowingCycle, DeclRefers, WorldDepth, Walk, End, Growth, Room;
    var there :| Walk(w, root, there) && End(root, there) == d;
    var hop := [Hop(e, growth)];
    OneHop(w, d, e, growth);
    WalkConcat(w, root, there, hop);
    var hops := RoomWalk(w, e);
    WalkConcat(w, d, hop, hops);
    RoomAtLeast(w, root, there, d, hop + hops);
  }

  lemma OneHop(w: World, d: string, e: string, growth: int)
    requires DeclRefers(w, d, e, growth)
    ensures var hop := [Hop(e, growth)]; Walk(w, d, hop) && Growth(hop) == growth && forall x :: End(x, hop) == e
  {
    var hop := [Hop(e, growth)];
    assert Walk(w, e, hop[1..]) && Growth(hop[1..]) == 0;
  }

  lemma RoomWalk(w: World, d: string) returns (hops: seq<Hop>)
    ensures Walk(w, d, hops) && Growth(hops) == Room(w, d)
  {
    hops := [];
    if Room(w, d) > 0 {
      assert Grows(w, d, Room(w, d));
      hops :| Walk(w, d, hops) && Growth(hops) == Room(w, d);
    }
  }

  lemma RoomAtLeast(w: World, root: string, there: seq<Hop>, d: string, hops: seq<Hop>)
    requires NoGrowingCycle(w, root) && Walk(w, root, there) && End(root, there) == d
    requires Walk(w, d, hops) && hops != []
    ensures Growth(hops) <= Room(w, d)
  {
    assert d in w.decls;
    WalkKnown(w, d, hops);
    GrowthBounded(w, root, there, d, hops, w.decls.Keys, WorldDepth(w, w.decls.Keys));
    assert Grows(w, d, Growth(hops));
  }

  // ----- the types below a declaration fit into its room -----

  /** Wherever the walk follows a reference in t, the path grows at most to the room that is left. */
  ghost predicate Fits(w: World, root: string, file: string, t: Ty, room: int) {
    forall e, growth :: Refers(w, file, t, e, growth) && e in w.decls ==>
      Reaches(w, root, e) && growth + Room(w, e) <= room
  }

  ghost predicate MembersFit(w: World, root: string, file: string, members: seq<Field>, room: int) {
    forall i :: 0 <= i < |members| && members[i].Property? && members[i].ty.Some? ==>
      Fits(w, root, file, members[i].ty.value, room)
  }

  ghost predicate BasesFit(w: World, root: string, file: string, bases: seq<Option<string>>, room: int) {
    forall i :: 0 <= i < |bases| && bases[i].Some? && DeclFor(w, file, bases[i].value).Some? ==>
      Reaches(w, root, DeclFor(w, file, bases[i].value).value) &&
        Room(w, DeclFor(w, file, bases[i].value).value) <= room
  }

  lemma AliasFits(w: World, root: string, d: string)
    requires NoGrowingCycle(w, root) && Reaches(w, root, d) && d in w.decls && w.decls[d].decl.Alias?
    ensures Fits(w, root, w.decls[d].file, w.decls[d].decl.ty, Room(w, d))
  {
    forall e, growth | Refers(w, w.decls[d].file, w.decls[d].decl.ty, e, growth) && e in w.decls
      ensures Reaches(w, root, e) && growth + Room(w, e) <= Room(w, d)
    {
      assert DeclRefers(w, d, e, growth);
      RoomLeft(w, root, d, e, growth);
    }
  }

  lemma InterfaceFits(w: World, root: string, d: string)
    requires NoGrowingCycle(w, root) && Reaches(w, root, d) && d in w.decls && w.decls[d].decl.Interface?
    ensures MembersFit(w, root, w.decls[d].file, w.decls[d].decl.members, Room(w, d) + 1)
    ensures BasesFit(w, root, w.decls[d].file, w.decls[d].decl.bases, Room(w, d))
  {
    hide NoGrowingCycle, Reaches, Room, Refers;
    var file, members, bases := w.decls[d].file, w.decls[d].decl.members, w.decls[d].decl.bases;
    forall i | 0 <= i < |members| && members[i].Property? && members[i].ty.Some?
      ensures Fits(w, root, file, members[i].ty.value, Room(w, d) + 1)
    {
      forall e, growth | Refers(w, file, members[i].ty.value, e, growth) && e in w.decls
        ensures Reaches(w, root, e) && growth + Room(w, e) <= Room(w, d) + 1
      {
        assert MembersRefer(w, file, members, e, (growth - 1) + 1);
        RoomLeft(w, root, d, e, growth - 1);
      }
    }
    forall i | 0 <= i < |bases| && bases[i].Some? && DeclFor(w, file, bases[i].value).Some?
      ensures Reaches(w, root, DeclFor(w, file, bases[i].value).value) &&
              Room(w, DeclFor(w, file, bases[i].value).value) <= Room(w, d)
    {
      RoomLeft(w, root, d, DeclFor(w, file, bases[i].value).value, 0);
    }
  }

  /** The parts of a type fit too, into the room that their position in it leaves. */
  lemma PartFits(w: World, root: string, file: string, t: Ty, part: Ty, room: int, change: int)
    requires Fits(w, root, file, t, room)
    requires forall e, growth :: Refers(w, file, part, e, growth) ==> Refers(w, file, t, e, growth + change)
    ensures Fits(w, root, file, part, room - change)
  {
    hide Reaches, Room, Refers;
    forall e, growth | Refers(w, file, part, e, growth) && e in w.decls
      ensures Reaches(w, root, e) && growth + Room(w, e) <= room - change
    {
      assert Refers(w, file, t, e, growth + change);
    }
  }

  // ----- the parts of a type fit -----

  lemma NextFits(w: World, root: string, file: string, t: Ty, steps: seq<Step>, room: int)
    requires Fits(w, root, file, t, room) && steps != [] && Next(t, steps).Some?
    ensures Fits(w, root, file, Next(t, steps).value.0, room + |steps| - |Next(t, steps).value.1|)
  {
    PartFits(w, root, file, t, Next(t, steps).value.0, room, |Next(t, steps).value.1| - |steps|);
  }

  lemma NextFieldFits(w: World, root: string, file: string, t: Ty, steps: seq<Step>, room: int)
    requires Fits(w, root, file, t, room) && steps != [] && NextField(t, steps).Some?
    ensures var f := NextField(t, steps).value; f.ty.Some? ==> Fits(w, root, file, f.ty.value, room + 1)
  {
    var f := NextField(t, steps).value;
    if f.ty.Some? { PartFits(w, root, file, t, f.ty.value, room, -1); }
  }

  lemma PartsFit(w: World, root: string, file: string, t: Ty, parts: seq<Ty>, room: int)
    requires Fits(w, root, file, t, room) && (t == Intersection(parts) || t == Union(parts))
    ensures forall i :: 0 <= i < |parts| ==> Fits(w, root, file, parts[i], room)
  {
    forall i | 0 <= i < |parts| ensures Fits(w, root, file, parts[i], room) {
      PartFits(w, root, file, t, parts[i], room, 0);
    }
  }

  lemma NextDeclFits(w: World, root: string, file: string, t: Ty, room: int)
    requires Fits(w, root, file, t, room) && NextDecl(w, file, t).Some?
    ensures var d := NextDecl(w, file, t).value; Reaches(w, root, d) && Room(w, d) <= room
  {
    assert Refers(w, file, t, NextDecl(w, file, t).value, 0);
  }

  // ----- the walk returns -----

  /** The visits that are still to come as long as the path has at most `length` steps. */
  ghost function Unseen(w: World, seen: Seen, length: nat): nat {
    |set d, n | d in w.decls && 0 <= n <= length && (d, n) !in seen :: (d, n)|
  }

  lemma UnseenShrinks(w: World, seen: Seen, seen': Seen, length: nat)
    requires seen <= seen'
    ensures Unseen(w, seen', length) <= Unseen(w, seen, length)
  {
    SubsetCardinality(set d, n | d in w.decls && 0 <= n <= length && (d, n) !in seen' :: (d, n),
                      set d, n | d in w.decls && 0 <= n <= length && (d, n) !in seen :: (d, n));
  }

  lemma UnseenDrops(w: World, seen: Seen, d: string, m: nat, length: nat)
    requires d in w.decls && m <= length && (d, m) !in seen
    ensures Unseen(w, seen + {(d, m)}, length) < Unseen(w, seen, length)
  {
    var before := set e, n | e in w.decls && 0 <= n <= length && (e, n) !in seen :: (e, n);
    var after := set e, n | e in w.decls && 0 <= n <= length && (e, n) !in seen + {(d, m)} :: (e, n);
    assert (d, m) in before && (d, m) !in after;
    SubsetCardinality(after, before);
  }

  ghost predicate Short(visits: seq<Visit>, length: nat) {
    forall v :: v in visits ==> v.1 <= length
  }

  lemma ShortConcat(a: seq<Visit>, b: seq<Visit>, length: nat)
    ensures Short(a + b, length) <==> Short(a, length) && Short(b, length)
  {
    assert forall v :: v in a + b <==> v in a || v in b;
  }

  /** However deep the walk goes, it enters no declaration with more than `length` steps. */
  ghost predicate StaysShort(w: World, d: string, steps: seq<Step>, length: nat)
    requires d in w.decls
  {
    forall n: nat :: Short(DeclVisits(w, d, steps, n), length)
  }

  ghost predicate TyStaysShort(w: World, file: string, t: Ty, steps: seq<Step>, length: nat) {
    forall n: nat :: Short(TyVisits(w, file, t, steps, n), length)
  }

  ghost predicate EachStaysShort(w: World, file: string, ts: seq<Ty>, steps: seq<Step>, length: nat) {
    forall n: nat :: Short(EachVisits(w, file, ts, steps, n), length)
  }

  ghost predicate BasesStayShort(w: World, file: string, bases: seq<Option<string>>, steps: seq<Step>, length: nat) {
    forall n: nat :: Short(BasesVisits(w, file, bases, steps, n), length)
  }

  /** What holds of the visits holds of those below, one level of the recursion deeper. */
  lemma BodyStaysShort(w: World, d: string, steps: seq<Step>, length: nat)
    requires d in w.decls && steps != [] && !w.decls[d].decl.Enum? && StaysShort(w, d, steps, length)
    ensures |steps| <= length && forall n: nat :: Short(BodyVisits(w, d, steps, n), length)
  {
    hide Short, BodyVisits;
    VisitFirst(w, d, steps, length, 0);
    forall n: nat ensures Short(BodyVisits(w, d, steps, n), length) { VisitFirst(w, d, steps, length, n); }
  }

  lemma VisitFirst(w: World, d: string, steps: seq<Step>, length: nat, n: nat)
    requires d in w.decls && steps != [] && !w.decls[d].decl.Enum? && StaysShort(w, d, steps, length)
    ensures |steps| <= length && Short(BodyVisits(w, d, steps, n), length)
  {
    hide BodyVisits;
    var first, rest := [(d, |steps|)], BodyVisits(w, d, steps, n);
    assert Short(DeclVisits(w, d, steps, n + 1), length);
    ShortConcat(first, rest, length);
    assert first[0] in first;
  }

  lemma FirstStaysShort(w: World, file: string, ts: seq<Ty>, steps: seq<Step>, length: nat)
    requires ts != [] && EachStaysShort(w, file, ts, steps, length)
    ensures TyStaysShort(w, file, ts[0], steps, length) && EachStaysShort(w, file, ts[1..], steps, length)
  {
    hide Short, TyVisits;
    forall n: nat
      ensures Short(TyVisits(w, file, ts[0], steps, n), length) && Short(EachVisits(w, file, ts[1..], steps, n), length)
    {
      assert Short(EachVisits(w, file, ts, steps, n), length);
      ShortConcat(TyVisits(w, file, ts[0], steps, n), EachVisits(w, file, ts[1..], steps, n), length);
    }
  }

  lemma FirstBaseStaysShort(w: World, file: string, bases: seq<Option<string>>, steps: seq<Step>, length: nat)
    requires bases != [] && BasesStayShort(w, file, bases, steps, length)
    ensures BasesStayShort(w, file, bases[1..], steps, length)
    ensures bases[0].Some? && DeclFor(w, file, bases[0].value).Some? ==>
              StaysShort(w, DeclFor(w, file, bases[0].value).value, steps, length)
  {
    hide Short, DeclVisits;
    forall n: nat
      ensures Short(BasesVisits(w, file, bases[1..], steps, n), length)
      ensures bases[0].Some? && DeclFor(w, file, bases[0].value).Some? ==>
                Short(DeclVisits(w, DeclFor(w, file, bases[0].value).value, steps, n), length)
    {
      assert Short(BasesVisits(w, file, bases, steps, n), length);
      ShortConcat(BaseVisits(w, file, bases[0], steps, n), BasesVisits(w, file, bases[1..], steps, n), length);
    }
  }

  lemma FieldStaysShort(w: World, file: string, f: Field, steps: seq<Step>, length: nat)
    requires f.Property? && |steps| > 1 && f.ty.Some?
    requires forall n: nat :: Short(FieldVisits(w, file, f, steps, n), length)
    ensures TyStaysShort(w, file, f.ty.value, steps[1..], length)
  {
    hide Short, TyVisits;
    forall n: nat ensures Short(TyVisits(w, file, f.ty.value, steps[1..], n), length) {
      assert Short(FieldVisits(w, file, f, steps, n), length);
    }
  }

  lemma NextStaysShort(w: World, file: string, t: Ty, steps: seq<Step>, length: nat)
    requires steps != [] && TyStaysShort(w, file, t, steps, length)
    ensures if Next(t, steps).Some? then TyStaysShort(w, file, Next(t, steps).value.0, Next(t, steps).value.1, length)
            else if NextDecl(w, file, t).Some? then StaysShort(w, NextDecl(w, file, t).value, steps, length)
            else if NextField(t, steps).Some? then
              forall n: nat :: Short(FieldVisits(w, file, NextField(t, steps).value, steps, n), length)
            else t.Intersection? || t.Union? ==> EachStaysShort(w, file, t.parts, steps, length)
  {
    hide Short, Next, NextDecl, NextField, DeclVisits, FieldVisits, EachVisits;
    forall n: nat
      ensures if Next(t, steps).Some? then
              Short(TyVisits(w, file, Next(t, steps).value.0, Next(t, steps).value.1, n), length)
              else if NextDecl(w, file, t).Some? then Short(DeclVisits(w, NextDecl(w, file, t).value, steps, n), length)
              else if NextField(t, steps).Some? then
                  Short(FieldVisits(w, file, NextField(t, steps).value, steps, n), length)
              else t.Intersection? || t.Union? ==> Short(EachVisits(w, file, t.parts, steps, n), length)
    {
      assert Short(TyVisits(w, file, t, steps, n + 1), length);
    }
  }

  lemma {:induction false} DeclReturns(w: World, d: string, steps: seq<Step>, seen: Seen, length: nat)
    returns (fuel: nat)
    requires d in w.decls && StaysShort(w, d, steps, length)
    ensures LookupDecl(w, d, steps, seen, fuel).Answer?
    decreases Unseen(w, seen, length), 0
  {
    hide Unseen, Short, BodyVisits, TyVisits, BasesVisits, FieldVisits;
    fuel := 1;
    if steps != [] && !w.decls[d].decl.Enum? && (d, |steps|) !in seen {
      BodyStaysShort(w, d, steps, length);
      UnseenDrops(w, seen, d, |steps|, length);
      match w.decls[d].decl {
        case Alias(ty) =>
          AliasStaysShort(w, d, steps, length);
          var n := TyReturns(w, w.decls[d].file, ty, steps, seen + {(d, |steps|)}, length);
          fuel := n + 1;
        case Interface(members, bases) =>
          if steps[0].Member? {
            var n := InterfaceReturns(w, d, steps, seen + {(d, |steps|)}, length);
            fuel := n + 1;
          }
      }
    }
  }

  lemma AliasStaysShort(w: World, d: string, steps: seq<Step>, length: nat)
    requires d in w.decls && steps != [] && w.decls[d].decl.Alias? &&
             forall n: nat :: Short(BodyVisits(w, d, steps, n), length)
    ensures TyStaysShort(w, w.decls[d].file, w.decls[d].decl.ty, steps, length)
  {
    hide Short, TyVisits;
    forall n: nat ensures Short(TyVisits(w, w.decls[d].file, w.decls[d].decl.ty, steps, n), length) {
      assert Short(BodyVisits(w, d, steps, n), length);
    }
  }

  lemma InterfaceStaysShort(w: World, d: string, steps: seq<Step>, length: nat)
    requires d in w.decls && steps != [] && w.decls[d].decl.Interface? && steps[0].Member?
    requires forall n: nat :: Short(BodyVisits(w, d, steps, n), length)
    ensures var file, members, bases := w.decls[d].file, w.decls[d].decl.members, w.decls[d].decl.bases;
            var i := FieldIndex(members, steps[0].name);
            if i != -1 then forall n: nat :: Short(FieldVisits(w, file, members[i], steps, n), length)
            else BasesStayShort(w, file, bases, steps, length)
  {
    hide Short, FieldVisits, BasesVisits;
    var file, members, bases := w.decls[d].file, w.decls[d].decl.members, w.decls[d].decl.bases;
    var i := FieldIndex(members, steps[0].name);
    forall n: nat
      ensures if i != -1 then Short(FieldVisits(w, file, members[i], steps, n), length)
              else Short(BasesVisits(w, file, bases, steps, n), length)
    {
      assert Short(BodyVisits(w, d, steps, n), length);
    }
  }

  lemma {:induction false} InterfaceReturns(w: World, d: string, steps: seq<Step>, seen: Seen, length: nat)
    returns (fuel: nat)
    requires d in w.decls && w.decls[d].decl.Interface? && steps != [] && steps[0].Member?
    requires forall n: nat :: Short(BodyVisits(w, d, steps, n), length)
    ensures var file, members, bases := w.decls[d].file, w.decls[d].decl.members, w.decls[d].decl.bases;
            var i := FieldIndex(members, steps[0].name);
            if i != -1 then LookupField(w, file, members[i], steps, seen, fuel).Answer?
            else LookupBases(w, file, bases, steps, seen, fuel).Answers?
    decreases Unseen(w, seen, length), 4
  {
    InterfaceStaysShort(w, d, steps, length);
    hide Unseen, Short, BodyVisits, FieldVisits, BasesVisits;
    var file, members, bases := w.decls[d].file, w.decls[d].decl.members, w.decls[d].decl.bases;
    var i := FieldIndex(members, steps[0].name);
    if i != -1 {
      fuel := FieldReturns(w, file, members[i], steps, seen, length);
    } else {
      fuel := BasesReturn(w, file, bases, steps, seen, length);
    }
  }

  lemma {:induction false} FieldReturns(w: World, file: string, f: Field, steps: seq<Step>, seen: Seen, length: nat)
    returns (fuel: nat)
    requires f.Property? && steps != [] && forall n: nat :: Short(FieldVisits(w, file, f, steps, n), length)
    ensures LookupField(w, file, f, steps, seen, fuel).Answer?
    decreases Unseen(w, seen, length), 2, f
  {
    hide Unseen, Short, FieldVisits, TyVisits;
    fuel := 0;
    if |steps| > 1 && f.ty.Some? {
      FieldStaysShort(w, file, f, steps, length);
      fuel := TyReturns(w, file, f.ty.value, steps[1..], seen, length);
    }
  }

  lemma {:induction false} BasesReturn(w: World, file: string, bases: seq<Option<string>>, steps: seq<Step>, seen: Seen,
                                       length: nat)
    returns (fuel: nat)
    requires BasesStayShort(w, file, bases, steps, length)
    ensures LookupBases(w, file, bases, steps, seen, fuel).Answers?
    decreases Unseen(w, seen, length), 1, |bases|
  {
    hide Unseen, BasesStayShort, StaysShort;
    fuel := 0;
    if bases != [] {
      FirstBaseStaysShort(w, file, bases, steps, length);
      var d := if bases[0].None? then None else DeclFor(w, file, bases[0].value);
      var m := 0;
      if d.Some? {
        m := DeclReturns(w, d.value, steps, seen, length);
      }
      var first := if d.None? then Answer(Unknown, seen, false) else LookupDecl(w, d.value, steps, seen, m);
      UnseenShrinks(w, seen, first.seen, length);
      var n := BasesReturn(w, file, bases[1..], steps, first.seen, length);
      fuel := Max(m, n);
      if d.Some? { MoreFuelDecl(w, d.value, steps, seen, m, fuel); }
      MoreFuelBases(w, file, bases[1..], steps, first.seen, n, fuel);
    }
  }

  lemma {:induction false} EachReturns(w: World, file: string, ts: seq<Ty>, steps: seq<Step>, seen: Seen, length: nat)
    returns (fuel: nat)
    requires EachStaysShort(w, file, ts, steps, length)
    ensures LookupEach(w, file, ts, steps, seen, fuel).Answers?
    decreases Unseen(w, seen, length), 2, ts
  {
    hide Unseen, EachStaysShort, TyStaysShort;
    fuel := 0;
    if ts != [] {
      FirstStaysShort(w, file, ts, steps, length);
      var m := TyReturns(w, file, ts[0], steps, seen, length);
      var first := LookupTy(w, file, ts[0], steps, seen, m);
      UnseenShrinks(w, seen, first.seen, length);
      var n := EachReturns(w, file, ts[1..], steps, first.seen, length);
      fuel := Max(m, n);
      MoreFuelTy(w, file, ts[0], steps, seen, m, fuel);
      MoreFuelEach(w, file, ts[1..], steps, first.seen, n, fuel);
    }
  }

  lemma {:induction false} TyReturns(w: World, file: string, t: Ty, steps: seq<Step>, seen: Seen, length: nat)
    returns (fuel: nat)
    requires TyStaysShort(w, file, t, steps, length)
    ensures LookupTy(w, file, t, steps, seen, fuel).Answer?
    decreases Unseen(w, seen, length), 2, t
  {
    hide TyStaysShort, EachStaysShort, StaysShort, Short, Unseen, LookupTy, Next, NextDecl, NextField, FieldVisits;
    var n := 0;
    if steps == [] {
      LookupEnds(w, file, t, steps, seen, n);
    } else {
      NextStaysShort(w, file, t, steps, length);
      if Next(t, steps).Some? {
        var (part, path) := Next(t, steps).value;
        n := TyReturns(w, file, part, path, seen, length);
        LookupNext(w, file, t, steps, seen, n);
      } else if NextDecl(w, file, t).Some? {
        n := DeclReturns(w, NextDecl(w, file, t).value, steps, seen, length);
        LookupNextDecl(w, file, t, steps, seen, n);
      } else if NextField(t, steps).Some? {
        n := FieldReturns(w, file, NextField(t, steps).value, steps, seen, length);
        LookupNextField(w, file, t, steps, seen, n);
      } else if t.Intersection? || t.Union? {
        n := EachReturns(w, file, t.parts, steps, seen, length);
        LookupParts(w, file, t, t.parts, steps, seen, n);
      } else {
        LookupEnds(w, file, t, steps, seen, n);
      }
    }
    fuel := n + 1;
  }

  /** `lookupPath` returns wherever its paths stay short: as long as they do, its guard meets all
      recursion in the end. */
  lemma ShortReturns(w: World, d: string, steps: seq<Step>, length: nat)
    requires d in w.decls && StaysShort(w, d, steps, length)
    ensures exists fuel: nat :: LookupDecl(w, d, steps, {}, fuel).Answer?
  {
    var fuel := DeclReturns(w, d, steps, {}, length);
  }

  // ----- without growing cycles the paths stay short -----

  lemma ShortNothing(length: nat)
    ensures Short([], length)
  {
  }

  lemma ShortFirst(v: Visit, rest: seq<Visit>, length: nat)
    requires v.1 <= length && Short(rest, length)
    ensures Short([v] + rest, length)
  {
  }

  lemma {:induction false} DeclFits(w: World, root: string, d: string, steps: seq<Step>, length: nat, n: nat)
    requires NoGrowingCycle(w, root) && Reaches(w, root, d) && d in w.decls && |steps| + Room(w, d) <= length
    ensures Short(DeclVisits(w, d, steps, n), length)
    decreases n, 0, 0
  {
    hide NoGrowingCycle, Reaches, Room, Short, BodyVisits;
    ShortNothing(length);
    if n > 0 && steps != [] && !w.decls[d].decl.Enum? {
      BodyFits(w, root, d, steps, length, n - 1);
      ShortFirst((d, |steps|), BodyVisits(w, d, steps, n - 1), length);
    }
  }

  lemma {:induction false} BodyFits(w: World, root: string, d: string, steps: seq<Step>, length: nat, n: nat)
    requires NoGrowingCycle(w, root) && Reaches(w, root, d) && d in w.decls && steps != [] &&
             |steps| + Room(w, d) <= length
    ensures Short(BodyVisits(w, d, steps, n), length)
    decreases n, 2, 0
  {
    hide NoGrowingCycle, Reaches, Room, Short, Fits, BasesFit;
    ShortNothing(length);
    var file := w.decls[d].file;
    match w.decls[d].decl {
      case Enum =>
      case Alias(ty) =>
        AliasFits(w, root, d);
        TyFits(w, root, file, ty, steps, Room(w, d), length, n);
      case Interface(members, bases) =>
        if steps[0].Member? {
          InterfaceFits(w, root, d);
          var i := FieldIndex(members, steps[0].name);
          if i != -1 {
            FieldFits(w, root, file, members[i], steps, Room(w, d) + 1, length, n);
          } else {
            BasesVisitsFit(w, root, file, bases, steps, Room(w, d), length, n);
          }
        }
    }
  }

  lemma FieldFits(w: World, root: string, file: string, f: Field, steps: seq<Step>, room: int, length: nat, n: nat)
    requires NoGrowingCycle(w, root) && f.Property? && steps != [] && |steps| - 1 + room <= length
    requires f.ty.Some? ==> Fits(w, root, file, f.ty.value, room)
    ensures Short(FieldVisits(w, file, f, steps, n), length)
    decreases n, 1, 0
  {
    hide NoGrowingCycle, Fits, Short;
    ShortNothing(length);
    if |steps| > 1 && f.ty.Some? { TyFits(w, root, file, f.ty.value, steps[1..], room, length, n); }
  }

  lemma {:induction false} BasesVisitsFit(w: World, root: string, file: string, bases: seq<Option<string>>,
                                          steps: seq<Step>, room: nat, length: nat, n: nat)
    requires NoGrowingCycle(w, root) && |steps| + room <= length && BasesFit(w, root, file, bases, room)
    ensures Short(BasesVisits(w, file, bases, steps, n), length)
    decreases n, 1, |bases| + 1
  {
    hide NoGrowingCycle, Reaches, Room, Short;
    ShortNothing(length);
    if bases != [] {
      var d := if bases[0].None? then None else DeclFor(w, file, bases[0].value);
      if d.Some? { DeclFits(w, root, d.value, steps, length, n); }
      BasesVisitsFit(w, root, file, bases[1..], steps, room, length, n);
      ShortConcat(BaseVisits(w, file, bases[0], steps, n), BasesVisits(w, file, bases[1..], steps, n), length);
    }
  }

  lemma {:induction false} EachFits(w: World, root: string, file: string, ts: seq<Ty>, steps: seq<Step>, room: int,
                                    length: nat, n: nat)
    requires NoGrowingCycle(w, root) && |steps| + room <= length
    requires forall i :: 0 <= i < |ts| ==> Fits(w, root, file, ts[i], room)
    ensures Short(EachVisits(w, file, ts, steps, n), length)
    decreases n, 1, |ts|
  {
    hide NoGrowingCycle, Fits, Short;
    ShortNothing(length);
    if ts != [] {
      TyFits(w, root, file, ts[0], steps, room, length, n);
      EachFits(w, root, file, ts[1..], steps, room, length, n);
      ShortConcat(TyVisits(w, file, ts[0], steps, n), EachVisits(w, file, ts[1..], steps, n), length);
    }
  }

  lemma {:induction false} TyFits(w: World, root: string, file: string, t: Ty, steps: seq<Step>, room: int, length: nat,
                                  n: nat)
    requires NoGrowingCycle(w, root) && Fits(w, root, file, t, room) && |steps| + room <= length
    ensures Short(TyVisits(w, file, t, steps, n), length)
    decreases n, 0, 0
  {
    hide NoGrowingCycle, Fits, Reaches, Room, Short, Next, NextDecl, NextField;
    ShortNothing(length);
    if n > 0 && steps != [] {
      if Next(t, steps).Some? {
        NextFits(w, root, file, t, steps, room);
        var (part, path) := Next(t, steps).value;
        TyFits(w, root, file, part, path, room + |steps| - |path|, length, n - 1);
      } else if NextDecl(w, file, t).Some? {
        NextDeclFits(w, root, file, t, room);
        DeclFits(w, root, NextDecl(w, file, t).value, steps, length, n - 1);
      } else if NextField(t, steps).Some? {
        NextFieldFits(w, root, file, t, steps, room);
        FieldFits(w, root, file, NextField(t, steps).value, steps, room + 1, length, n - 1);
      } else if t.Intersection? || t.Union? {
        PartsFit(w, root, file, t, t.parts, room);
        EachFits(w, root, file, t.parts, steps, room, length, n - 1);
      }
    }
  }

  /** `lookupPath` returns on every path, recursive types included, unless the types make the path grow
      again and again: a cycle of references may put back no more steps by indexed accesses than it
      takes by members and elements. */
  lemma LookupReturns(w: World, d: string, steps: seq<Step>)
    requires d in w.decls && NoGrowingCycle(w, d)
    ensures exists fuel: nat :: LookupDecl(w, d, steps, {}, fuel).Answer?
  {
    assert Walk(w, d, []) && End(d, []) == d;
    var length := |steps| + Room(w, d);
    forall n: nat ensures Short(DeclVisits(w, d, steps, n), length) { DeclFits(w, d, d, steps, length, n); }
    ShortReturns(w, d, steps, length);
  }

  // ----- cycles through an indexed access -----

  /** `interface A { m: A['y'] }`: the member takes the step that the index puts back. */
  const PAYING := World(
    map["A" := Located("f.ts", Interface([Property("m", Some(Indexed(Reference("A", false, []), Some("y"))))], []))],
    map[("f.ts", "A") := "A"])

  lemma PayingReturns(steps: seq<Step>)
    ensures DeclRefers(PAYING, "A", "A", 0)
    ensures exists fuel: nat :: LookupDecl(PAYING, "A", steps, {}, fuel).Answer?
  {
    var w, a := PAYING, Reference("A", false, []);
    assert DeclFor(w, "f.ts", "A") == Some("A");
    assert Refers(w, "f.ts", a, "A", 0);
    assert Refers(w, "f.ts", Indexed(a, Some("y")), "A", 1);
    var members := w.decls["A"].decl.members;
    assert members[0].Property? && members[0].ty == Some(Indexed(a, Some("y")));
    assert MembersRefer(w, "f.ts", members, "A", 0 + 1);
    forall there, around | Walk(w, "A", there) && Walk(w, End("A", there), around) ensures Growth(around) <= 0 {
      PayingWalk(End("A", there), around);
    }
    LookupReturns(w, "A", steps);
  }

  lemma {:induction false} PayingWalk(d: string, hops: seq<Hop>)
    requires Walk(PAYING, d, hops)
    ensures Growth(hops) == 0
    decreases |hops|
  {
    if hops != [] {
      var a := Reference("A", false, []);
      var e, growth, members := hops[0].to, hops[0].growth, PAYING.decls["A"].decl.members;
      assert d == "A" && PAYING.decls["A"].file == "f.ts";
      assert MembersRefer(PAYING, "f.ts", members, e, growth + 1);
      assert members[0].ty == Some(Indexed(a, Some("y")));
      assert Refers(PAYING, "f.ts", Indexed(a, Some("y")), e, growth + 1);
      assert Refers(PAYING, "f.ts", a, e, growth);
      PayingWalk(e, hops[1..]);
    }
  }
}
