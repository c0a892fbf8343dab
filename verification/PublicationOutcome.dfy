/** What publishing and verifying come to, read off the registry before and after: what a run stores and
    tags and nothing else, which fault ends it, and exactly when `verify` passes. */
module PublicationOutcome {
  import opened Basics
  import opened Publication

  // ----- verify -----

  ghost predicate AnyTag(r: Registry, name: string) {
    exists t :: (name, t) in r.tags
  }

  /** The error that names what is wrong with a dist-tag. */
  ghost predicate TagFault(r: Registry, b: Bundle, name: string, distTag: string, e: Error) {
    && ((name, distTag) in r.tags ==> r.tags[(name, distTag)] != b.version)
    && e == if AnyTag(r, name) then WrongDistTag(name, distTag) else NoDistTags(name)
  }

  /** The error that names what is wrong with a package of the bundle, its content first. */
  ghost predicate PackageFault(r: Registry, b: Bundle, p: PackedPackage, e: Error) {
    if (p.name, b.version) !in r.published then e == PackageMissing(p.name)
    else if r.published[(p.name, b.version)] == p.integrity then TagFault(r, b, p.name, b.distTag, e)
    else if StartsWith(r.published[(p.name, b.version)], "sha512-") then e == DifferentIntegrity(p.name)
    else e == NoIntegrity(p.name)
  }

  lemma AnyTagIsHasTags(r: Registry, name: string)
    ensures AnyTag(r, name) <==> HasTags(r, name)
  {
    if HasTags(r, name) {
      var k :| k in r.tags && k.0 == name;
      assert (name, k.1) in r.tags;
    }
    if t :| (name, t) in r.tags { assert (name, t).0 == name; }
  }

  lemma VerifyTagOutcome(w: World, b: Bundle, name: string, distTag: string)
    requires w.budget > 0
    ensures var (w1, r) := VerifyTag(w, b, name, distTag);
            && w1.registry == w.registry && w1.budget == w.budget - 1 && !r.Crashed?
            && (r.Done? <==> (name, distTag) in w.registry.tags && w.registry.tags[(name, distTag)] == b.version)
            && (r.Failed? ==> TagFault(w.registry, b, name, distTag, r.error))
  {
    AnyTagIsHasTags(w.registry, name);
    assert (name, distTag) in w.registry.tags ==> AnyTag(w.registry, name);
  }

  lemma VerifyPackageOutcome(w: World, b: Bundle, p: PackedPackage)
    requires StartsWith(p.integrity, "sha512-") && w.budget >= 2
    ensures var (w1, r) := VerifyPackage(w, b, p);
            && w1.registry == w.registry && w1.budget >= w.budget - 2 && !r.Crashed?
            && (r.Done? <==> Settled(w.registry, b, p))
            && (r.Failed? ==> PackageFault(w.registry, b, p, r.error))
  {
    VerifyTagOutcome(Spend(w), b, p.name, b.distTag);
    hide VerifyTag;
  }

  /** The first package of the bundle, from i on, that is not settled. */
  ghost predicate FirstUnsettled(r: Registry, b: Bundle, i: nat, k: int) {
    i <= k < |b.packages| && !Settled(r, b, b.packages[k]) && forall j :: i <= j < k ==> Settled(r, b, b.packages[j])
  }

  lemma {:induction false} VerifyFromOutcome(w: World, b: Bundle, i: nat)
    requires Loaded(b) && i <= |b.packages| && w.budget >= 2 * (|b.packages| - i)
    ensures var (w1, r) := VerifyFrom(w, b, i);
            && w1.registry == w.registry && w1.budget >= w.budget - 2 * (|b.packages| - i) && !r.Crashed?
            && (r.Done? <==> forall j :: i <= j < |b.packages| ==> Settled(w.registry, b, b.packages[j]))
            && (r.Failed? ==> exists k :: FirstUnsettled(w.registry, b, i, k) &&
                                PackageFault(w.registry, b, b.packages[k], r.error))
    decreases |b.packages| - i
  {
    hide VerifyPackage, Settled, PackageFault;
    if i < |b.packages| {
      var p := b.packages[i];
      VerifyPackageOutcome(w, b, p);
      var (w1, r) := VerifyPackage(w, b, p);
      if r.Done? {
        VerifyFromOutcome(w1, b, i + 1);
        var r' := VerifyFrom(w1, b, i + 1).1;
        if r'.Failed? {
          var k :| FirstUnsettled(w.registry, b, i + 1, k) && PackageFault(w.registry, b, b.packages[k], r'.error);
          assert FirstUnsettled(w.registry, b, i, k);
        }
      } else {
        assert FirstUnsettled(w.registry, b, i, i);
      }
    }
  }

  /** How verifying ends: it passes exactly if every package of the bundle is there with its integrity and
      its tag, and `latest` of the entry package points at the bundle. Otherwise it names the fault of
      the first package that is not, or of that tag. */
  ghost predicate VerifiedAs(r: Registry, reply: Reply<()>, b: Bundle) {
    if Complete(r, b) && Exposed(r, b) then reply == Done(())
    else
      && reply.Failed?
      && if Complete(r, b) then TagFault(r, b, ENTRY, LATEST, reply.error)
         else exists k :: FirstUnsettled(r, b, 0, k) && PackageFault(r, b, b.packages[k], reply.error)
  }

  lemma VerifyOutcome(w: World, b: Bundle)
    requires Loaded(b) && w.budget >= 2 * |b.packages| + 2
    ensures var (w1, reply) := Verify(w, b); w1.registry == w.registry && VerifiedAs(w.registry, reply, b)
  {
    hide VerifyFrom, VerifyTag, Settled, PackageFault, TagFault;
    VerifyFromOutcome(Spend(w), b, 0);
    var (w1, r) := VerifyFrom(Spend(w), b, 0);
    UnitReply(Verify(w, b).1);
    if r.Done? { VerifyTagOutcome(w1, b, ENTRY, LATEST); }
  }

  // ----- publish -----

  /** s is r with the first n packages of the bundle stored and tagged, and nothing else changed. */
  ghost predicate Stocked(r: Registry, s: Registry, b: Bundle, n: nat)
    requires n <= |b.packages|
  {
    && (forall i :: 0 <= i < n ==> Settled(s, b, b.packages[i]))
    && VersionsAdded(r, s, b, n) && TagsMoved(r, s, b, n)
  }

  ghost predicate VersionsAdded(r: Registry, s: Registry, b: Bundle, n: nat) {
    && (forall k :: k in s.published <==> k in r.published || VersionOf(b, n, k))
    && (forall k :: k in r.published ==> k in s.published && s.published[k] == r.published[k])
  }

  ghost predicate TagsMoved(r: Registry, s: Registry, b: Bundle, n: nat) {
    && (forall k :: k in s.tags <==> k in r.tags || TagOf(b, n, k))
    && (forall k :: k in r.tags && !TagOf(b, n, k) ==> k in s.tags && s.tags[k] == r.tags[k])
  }

  ghost predicate VersionOf(b: Bundle, n: nat, k: (string, string)) {
    exists i :: 0 <= i < n && i < |b.packages| && k == (b.packages[i].name, b.version)
  }

  ghost predicate TagOf(b: Bundle, n: nat, k: (string, string)) {
    exists i :: 0 <= i < n && i < |b.packages| && k == (b.packages[i].name, b.distTag)
  }

  /** Which error stops a package from being published. */
  ghost predicate PublishFault(r: Registry, b: Bundle, p: PackedPackage, e: Error) {
    && (p.name, b.version) in r.published
    && if r.published[(p.name, b.version)] == p.integrity then e == NoDistTags(p.name)
       else if StartsWith(r.published[(p.name, b.version)], "sha512-") then e == DifferentIntegrity(p.name)
       else e == NoIntegrity(p.name)
  }

  ghost predicate FirstConflict(r: Registry, b: Bundle, k: nat) {
    k < |b.packages| && !NoConflict(r, b, b.packages[k]) && forall j :: 0 <= j < k ==> NoConflict(r, b, b.packages[j])
  }

  lemma NothingStocked(r: Registry, b: Bundle)
    ensures Stocked(r, r, b, 0)
  {
  }

  lemma OneMore(r: Registry, s: Registry, b: Bundle, i: nat)
    requires Loaded(b) && i < |b.packages| && Stocked(r, s, b, i) && NoConflict(r, b, b.packages[i])
    ensures PackageEffect(s, b, b.packages[i]).1 == Done(())
    ensures Stocked(r, PackageEffect(s, b, b.packages[i]).0, b, i + 1)
  {
    PackageApart(r, s, b, i);
    PackageSettles(s, b, b.packages[i]);
    hide PackageEffect, NoConflict;
    StockedNext(r, s, PackageEffect(s, b, b.packages[i]).0, b, i);
  }

  /** t is s with the package stored and tagged, and nothing else changed. */
  ghost predicate SettledOnly(s: Registry, t: Registry, b: Bundle, p: PackedPackage) {
    && Settled(t, b, p)
    && (forall k :: k in t.published <==> k in s.published || k == (p.name, b.version))
    && (forall k :: k in s.published ==> t.published[k] == s.published[k])
    && (forall k :: k in t.tags <==> k in s.tags || k == (p.name, b.distTag))
    && (forall k :: k in s.tags && k != (p.name, b.distTag) ==> t.tags[k] == s.tags[k])
  }

  lemma StockedNext(r: Registry, s: Registry, t: Registry, b: Bundle, i: nat)
    requires Loaded(b) && i < |b.packages| && Stocked(r, s, b, i) && SettledOnly(s, t, b, b.packages[i])
    ensures Stocked(r, t, b, i + 1)
  {
    hide VersionsAdded, TagsMoved, SettledOnly, Loaded, Settled;
    VersionsNext(r, s, t, b, i);
    TagsNext(r, s, t, b, i);
    forall j | 0 <= j < i + 1 ensures Settled(t, b, b.packages[j]) {
      if j < i { assert Settled(s, b, b.packages[j]); }
      SettledNext(s, t, b, i, j);
    }
  }

  lemma VersionsNext(r: Registry, s: Registry, t: Registry, b: Bundle, i: nat)
    requires i < |b.packages| && VersionsAdded(r, s, b, i) && SettledOnly(s, t, b, b.packages[i])
    ensures VersionsAdded(r, t, b, i + 1)
  {
    VersionsOf(b, i);
    hide VersionOf, TagOf, Settled;
  }

  lemma TagsNext(r: Registry, s: Registry, t: Registry, b: Bundle, i: nat)
    requires i < |b.packages| && TagsMoved(r, s, b, i) && SettledOnly(s, t, b, b.packages[i])
    ensures TagsMoved(r, t, b, i + 1)
  {
    VersionsOf(b, i);
    hide VersionOf, TagOf, Settled;
  }

  lemma SettledNext(s: Registry, t: Registry, b: Bundle, i: nat, j: nat)
    requires Loaded(b) && j <= i < |b.packages| && SettledOnly(s, t, b, b.packages[i])
    requires j < i ==> Settled(s, b, b.packages[j])
    ensures Settled(t, b, b.packages[j])
  {
    if j < i { assert (b.packages[j].name, b.distTag) != (b.packages[i].name, b.distTag); }
  }

  lemma VersionsOf(b: Bundle, i: nat)
    requires i < |b.packages|
    ensures forall k :: VersionOf(b, i + 1, k) <==> VersionOf(b, i, k) || k == (b.packages[i].name, b.version)
    ensures forall k :: TagOf(b, i + 1, k) <==> TagOf(b, i, k) || k == (b.packages[i].name, b.distTag)
  {
    forall k { OneVersionOf(b, i, k); }
    hide VersionOf, TagOf;
  }

  lemma OneVersionOf(b: Bundle, i: nat, k: (string, string))
    requires i < |b.packages|
    ensures VersionOf(b, i + 1, k) <==> VersionOf(b, i, k) || k == (b.packages[i].name, b.version)
    ensures TagOf(b, i + 1, k) <==> TagOf(b, i, k) || k == (b.packages[i].name, b.distTag)
  {
    if VersionOf(b, i + 1, k) {
      var j :| 0 <= j < i + 1 && k == (b.packages[j].name, b.version);
      assert j < i ==> VersionOf(b, i, k);
    }
    if TagOf(b, i + 1, k) {
      var j :| 0 <= j < i + 1 && k == (b.packages[j].name, b.distTag);
      assert j < i ==> TagOf(b, i, k);
    }
  }

  /** What earlier packages did does not touch the next one. */
  lemma PackageApart(r: Registry, s: Registry, b: Bundle, i: nat)
    requires Loaded(b) && i < |b.packages| && Stocked(r, s, b, i)
    ensures var p := b.packages[i];
            && ((p.name, b.version) in s.published <==> (p.name, b.version) in r.published)
            && (NoConflict(s, b, p) <==> NoConflict(r, b, p))
            && (AnyTag(s, p.name) <==> AnyTag(r, p.name))
  {
    hide HasTags, AnyTag, TagsMoved, VersionsAdded, Settled, Loaded;
    var p := b.packages[i];
    VersionApart(r, s, b, i);
    TagsApart(r, s, b, i);
    AnyTagIsHasTags(r, p.name);
    AnyTagIsHasTags(s, p.name);
  }

  lemma VersionApart(r: Registry, s: Registry, b: Bundle, i: nat)
    requires Loaded(b) && i < |b.packages| && VersionsAdded(r, s, b, i)
    ensures var k := (b.packages[i].name, b.version);
            && (k in s.published <==> k in r.published)
            && (k in r.published ==> s.published[k] == r.published[k])
  {
    assert !VersionOf(b, i, (b.packages[i].name, b.version));
  }

  lemma TagsApart(r: Registry, s: Registry, b: Bundle, i: nat)
    requires Loaded(b) && i < |b.packages| && TagsMoved(r, s, b, i)
    ensures AnyTag(s, b.packages[i].name) <==> AnyTag(r, b.packages[i].name)
  {
    var name := b.packages[i].name;
    forall t ensures (name, t) in s.tags <==> (name, t) in r.tags { assert !TagOf(b, i, (name, t)); }
  }

  /** A package without a conflict is stored and tagged, and nothing else is changed. */
  lemma PackageSettles(s: Registry, b: Bundle, p: PackedPackage)
    requires StartsWith(p.integrity, "sha512-") && NoConflict(s, b, p)
    ensures var (t, reply) := PackageEffect(s, b, p);
            reply == Done(()) && SettledOnly(s, t, b, p)
  {
    StoreHasTags(s, b, p);
  }

  lemma PackageFails(s: Registry, b: Bundle, p: PackedPackage)
    requires StartsWith(p.integrity, "sha512-") && !NoConflict(s, b, p)
    ensures var (t, reply) := PackageEffect(s, b, p); t == s && reply.Failed? && PublishFault(s, b, p, reply.error)
  {
  }

  lemma {:induction false} EffectOutcome(r: Registry, s: Registry, b: Bundle, i: nat)
    requires Loaded(b) && i <= |b.packages| && Stocked(r, s, b, i)
    requires forall j :: 0 <= j < i ==> NoConflict(r, b, b.packages[j])
    ensures var (t, reply) := EffectFrom(s, b, i);
            if forall p :: p in b.packages ==> NoConflict(r, b, p) then
              reply == Done(()) && Stocked(r, t, b, |b.packages|)
            else
              exists k: nat :: FirstConflict(r, b, k) && Stocked(r, t, b, k) &&
                reply.Failed? && PublishFault(r, b, b.packages[k], reply.error)
    decreases |b.packages| - i
  {
    hide Stocked, NoConflict, PackageEffect, PublishFault;
    if i < |b.packages| {
      var p := b.packages[i];
      assert p in b.packages;
      if NoConflict(r, b, p) {
        OneMore(r, s, b, i);
        EffectOutcome(r, PackageEffect(s, b, p).0, b, i + 1);
      } else {
        FailsThere(r, s, b, i);
      }
    }
  }

  lemma FailsThere(r: Registry, s: Registry, b: Bundle, i: nat)
    requires Loaded(b) && i < |b.packages| && Stocked(r, s, b, i) && !NoConflict(r, b, b.packages[i])
    requires forall j :: 0 <= j < i ==> NoConflict(r, b, b.packages[j])
    ensures var (t, reply) := PackageEffect(s, b, b.packages[i]);
            t == s && reply.Failed? && PublishFault(r, b, b.packages[i], reply.error) && FirstConflict(r, b, i)
  {
    PackageApart(r, s, b, i);
    PackageFails(s, b, b.packages[i]);
    hide PackageEffect;
  }

  /** s is r with `latest` of the entry package moved to the bundle, and nothing else changed. */
  ghost predicate Latest(r: Registry, s: Registry, b: Bundle) {
    s == r.(tags := r.tags[(ENTRY, LATEST) := b.version])
  }

  /** The entry package's `latest` can be moved. */
  ghost predicate Exposable(r: Registry, b: Bundle) {
    InBundle(b, ENTRY) || Exposed(r, b) || (AnyTag(r, ENTRY) && (ENTRY, b.version) in r.published)
  }

  lemma ExposeOutcome(r: Registry, s: Registry, b: Bundle)
    requires Loaded(b) && Stocked(r, s, b, |b.packages|)
    ensures var (t, reply) := TagEffect(s, b, ENTRY, LATEST);
            if Exposable(r, b) then reply == Done(()) && Latest(s, t, b)
            else t == s && reply == Failed(if AnyTag(r, ENTRY) then NoSuchVersion(ENTRY) else NoDistTags(ENTRY))
  {
    AnyTagIsHasTags(r, ENTRY);
    AnyTagIsHasTags(s, ENTRY);
    if InBundle(b, ENTRY) {
      var i :| 0 <= i < |b.packages| && b.packages[i].name == ENTRY;
      assert Settled(s, b, b.packages[i]);
      assert (ENTRY, b.distTag) in s.tags;
    } else {
      assert !VersionOf(b, |b.packages|, (ENTRY, b.version));
      assert forall t :: !TagOf(b, |b.packages|, (ENTRY, t));
      EntryKept(r, s, b);
    }
    if Exposed(s, b) { assert s.tags[(ENTRY, LATEST) := b.version] == s.tags; }
  }

  lemma EntryKept(r: Registry, s: Registry, b: Bundle)
    requires Stocked(r, s, b, |b.packages|) && forall t :: !TagOf(b, |b.packages|, (ENTRY, t))
    requires !VersionOf(b, |b.packages|, (ENTRY, b.version))
    ensures (AnyTag(s, ENTRY) <==> AnyTag(r, ENTRY)) && (Exposed(s, b) <==> Exposed(r, b))
    ensures (ENTRY, b.version) in s.published <==> (ENTRY, b.version) in r.published
  {
    assert forall t :: (ENTRY, t) in s.tags <==> (ENTRY, t) in r.tags;
  }

  /** What a run that is not cut off makes of the registry r. It stores and tags the packages of the bundle
      up to the first conflict, and changes nothing else; with no conflict it also moves `latest` of the
      entry package, where that is possible. */
  ghost predicate PublishedAs(r: Registry, s: Registry, reply: Reply<()>, b: Bundle) {
    if exists p :: p in b.packages && !NoConflict(r, b, p) then
      exists k: nat :: FirstConflict(r, b, k) && Stocked(r, s, b, k) &&
        reply.Failed? && PublishFault(r, b, b.packages[k], reply.error)
    else if !Exposable(r, b) then
      && Stocked(r, s, b, |b.packages|)
      && reply == Failed(if AnyTag(r, ENTRY) then NoSuchVersion(ENTRY) else NoDistTags(ENTRY))
    else
      reply == Done(()) && exists t :: Stocked(r, t, b, |b.packages|) && Latest(t, s, b)
  }

  lemma PublishOutcome(w: World, b: Bundle)
    requires Loaded(b) && w.budget >= Enough(b)
    ensures PublishedAs(w.registry, Publish(w, b).0.registry, Publish(w, b).1, b)
  {
    hide Publish, EffectFrom, TagEffect, Stocked, NoConflict, FirstConflict, PublishFault, Exposable, Loaded;
    Uninterrupted(w, b);
    NothingStocked(w.registry, b);
    EffectOutcome(w.registry, w.registry, b, 0);
    var (s, reply) := EffectFrom(w.registry, b, 0);
    if reply.Done? { ExposeOutcome(w.registry, s, b); }
  }

  // ----- the writes of a run -----

  function Written(r: Registry, write: Write): Registry {
    match write
    case Published(name, version, integrity, distTag) =>
      Registry(r.published[(name, version) := integrity], r.tags[(name, distTag) := version])
    case Tagged(name, version, distTag) => Registry(r.published, r.tags[(name, distTag) := version])
  }

  function Replayed(r: Registry, writes: seq<Write>): Registry {
    if writes == [] then r else Written(Replayed(r, writes[..|writes| - 1]), writes[|writes| - 1])
  }

  /** The writes since v are the whole difference between the registries. */
  ghost predicate Explains(v: World, w: World) {
    v.writes <= w.writes && w.registry == Replayed(v.registry, w.writes[|v.writes|..])
  }

  lemma ExplainsNothing(v: World, w: World)
    requires v.registry == w.registry && v.writes == w.writes
    ensures Explains(v, w)
  {
  }

  lemma {:induction false} ReplayedTwice(r: Registry, a: seq<Write>, b: seq<Write>)
    ensures Replayed(Replayed(r, a), b) == Replayed(r, a + b)
    decreases |b|
  {
    if b == [] {
      assert a + b == a;
    } else {
      ReplayedTwice(r, a, b[..|b| - 1]);
      assert (a + b)[..|a + b| - 1] == a + b[..|b| - 1];
    }
  }

  lemma ExplainsBoth(u: World, v: World, w: World)
    requires Explains(u, v) && Explains(v, w)
    ensures Explains(u, w)
  {
    ReplayedTwice(u.registry, v.writes[|u.writes|..], w.writes[|v.writes|..]);
    assert v.writes[|u.writes|..] + w.writes[|v.writes|..] == w.writes[|u.writes|..];
  }

  lemma ExplainsOne(v: World, w: World, write: Write)
    requires w.writes == v.writes + [write] && w.registry == Written(v.registry, write)
    ensures Explains(v, w)
  {
    assert w.writes[|v.writes|..] == [write] && [write][..0] == [];
  }

  lemma TagExplained(w: World, b: Bundle, name: string, distTag: string)
    ensures Explains(w, EnsureDistTag(w, b, name, distTag).0)
  {
    var w1 := EnsureDistTag(w, b, name, distTag).0;
    if w1.writes == w.writes {
      ExplainsNothing(w, w1);
    } else {
      ExplainsOne(w, w1, Tagged(name, b.version, distTag));
    }
  }

  lemma PackageExplained(w: World, b: Bundle, p: PackedPackage)
    ensures Explains(w, PublishPackage(w, b, p).0)
  {
    var (w1, r) := PublishIfMissing(w, b, p);
    if w1.writes == w.writes {
      ExplainsNothing(w, w1);
    } else {
      ExplainsOne(w, w1, Published(p.name, b.version, p.integrity, b.distTag));
    }
    hide PublishIfMissing, EnsureDistTag, Explains;
    if r.Done? {
      TagExplained(w1, b, p.name, b.distTag);
      ExplainsBoth(w, w1, EnsureDistTag(w1, b, p.name, b.distTag).0);
    }
  }

  lemma {:induction false} PackagesExplained(w: World, b: Bundle, i: nat)
    requires i <= |b.packages|
    ensures Explains(w, PublishFrom(w, b, i).0)
    decreases |b.packages| - i
  {
    hide PublishPackage, Explains;
    if i == |b.packages| {
      ExplainsNothing(w, w);
    } else {
      var (w1, r) := PublishPackage(w, b, b.packages[i]);
      PackageExplained(w, b, b.packages[i]);
      if r.Done? {
        PackagesExplained(w1, b, i + 1);
        ExplainsBoth(w, w1, PublishFrom(w1, b, i + 1).0);
      }
    }
  }

  /** Wherever a run is cut off, replaying its writes on the old registry gives the new one. */
  lemma RunExplained(w: World, b: Bundle)
    ensures Explains(w, Publish(w, b).0)
  {
    hide PublishFrom, EnsureDistTag, VerifyAll, Explains;
    ExplainsNothing(w, w);
    if w.budget == 1 { ExplainsNothing(w, Spend(w)); }
    if w.budget >= 2 {
      var v := Spend(Spend(w));
      ExplainsNothing(w, v);
      PackagesExplained(v, b, 0);
      var (w1, r) := PublishFrom(v, b, 0);
      TagExplained(w1, b, ENTRY, LATEST);
      var w2 := EnsureDistTag(w1, b, ENTRY, LATEST).0;
      ExplainsBoth(w, v, w1);
      ExplainsBoth(w, w1, w2);
      VerifyReadsOnly(w2, b);
      ExplainsNothing(w2, VerifyAll(w2, b).0);
      ExplainsBoth(w, w2, VerifyAll(w2, b).0);
    }
  }

  // ----- series of runs, registry by registry -----

  /** rs are the registries before, between and after the runs, each of them cut off by its budget. */
  ghost predicate AreRuns(rs: seq<Registry>, b: Bundle, budgets: seq<nat>) {
    && |rs| == |budgets| + 1
    && forall i :: 0 <= i < |budgets| ==> rs[i + 1] == Publish(World(rs[i], budgets[i], []), b).0.registry
  }

  lemma {:induction false} RunsAreHistory(rs: seq<Registry>, b: Bundle, budgets: seq<nat>)
    requires AreRuns(rs, b, budgets)
    ensures rs[|budgets|] == History(rs[0], b, budgets)
    decreases |budgets|
  {
    hide Publish;
    if budgets != [] { RunsAreHistory(rs[1..], b, budgets[1..]); }
  }

  /** From a safe registry a guarded bundle is never exposed before it is complete, between any two runs
      of any series, and nothing stored is ever lost or replaced. */
  lemma RunsSafe(rs: seq<Registry>, b: Bundle, budgets: seq<nat>, i: nat)
    requires AreRuns(rs, b, budgets) && i <= |budgets| && Loaded(b) && Guarded(b) && Safe(rs[0], b)
    ensures Preserves(rs[0], rs[i]) && (Exposed(rs[i], b) ==> Complete(rs[i], b))
  {
    hide Publish, Loaded, Guarded;
    assert AreRuns(rs[..i + 1], b, budgets[..i]);
    RunsAreHistory(rs[..i + 1], b, budgets[..i]);
    HistorySafe(rs[0], b, budgets[..i]);
  }

  /** However often and wherever runs were cut off before it, a whole run ends as it would have ended
      first: with the same registry, and the same reply. */
  lemma RunsConverge(rs: seq<Registry>, b: Bundle, budgets: seq<nat>, n: nat, m: nat)
    requires AreRuns(rs, b, budgets) && Loaded(b) && n >= Enough(b) && m >= Enough(b)
    ensures var last, once := Publish(World(rs[|budgets|], n, []), b), Publish(World(rs[0], m, []), b);
            last.0.registry == once.0.registry && last.1 == once.1
  {
    hide Publish, Loaded;
    RunsAreHistory(rs, b, budgets);
    PublicationConverges(rs[0], b, budgets, n, m);
  }

  // ----- commands are counted -----

  /** Every command uses up one of the commands that are left; with none left it changes nothing. */
  lemma CommandsCount(w: World, name: string, version: string, integrity: string, distTag: string)
    ensures var left := if w.budget == 0 then 0 else w.budget - 1;
            && Ping(w).0.budget == left && RemoteIntegrity(w, name, version).0.budget == left
            && RemoteDistTag(w, name, distTag).0.budget == left
            && NpmPublish(w, name, version, integrity, distTag).0.budget == left
            && NpmDistTagAdd(w, name, version, distTag).0.budget == left
    ensures w.budget == 0 ==>
              && Ping(w) == (w, Crashed) && RemoteIntegrity(w, name, version) == (w, Crashed)
              && RemoteDistTag(w, name, distTag) == (w, Crashed)
              && NpmPublish(w, name, version, integrity, distTag) == (w, Crashed)
              && NpmDistTagAdd(w, name, version, distTag) == (w, Crashed)
  {
  }
}
