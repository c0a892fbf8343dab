/** `RegistryPublication`: publishing a release bundle by npm commands, any of which may be the last. */
module Publication {
  import opened Basics

  datatype PackedPackage = PackedPackage(name: string, tarball: string, integrity: string)

  datatype Bundle = Bundle(version: string, distTag: string, packages: seq<PackedPackage>)

  const ENTRY := "@deepseek-ai/dsh"
  const LATEST := "latest"

  /** What the registry stores: integrities by (name, version), versions by (name, dist-tag). */
  datatype Registry = Registry(published: map<(string, string), string>, tags: map<(string, string), string>)

  datatype Write =
    | Published(name: string, version: string, integrity: string, distTag: string)
    | Tagged(name: string, version: string, distTag: string)

  /** The world of one run: the registry, how many more npm commands complete before the run dies,
      and the writes the run has made. */
  datatype World = World(registry: Registry, budget: nat, writes: seq<Write>)

  datatype Error =
    | DifferentIntegrity(name: string)
    | NoIntegrity(name: string)
    | NoDistTags(name: string)
    | NoSuchVersion(name: string)
    | PackageMissing(name: string)
    | WrongDistTag(name: string, distTag: string)

  /** A value, a thrown error, or a run that was cut off. */
  datatype Reply<+T> = Done(value: T) | Failed(error: Error) | Crashed


  // ----- npm commands -----

  function Spend(w: World): World
    requires w.budget > 0
  {
    w.(budget := w.budget - 1)
  }

  /** `npm ping`, `npm whoami`: commands whose only outcome is that they succeed. */
  function Ping(w: World): (World, Reply<()>) {
    if w.budget == 0 then (w, Crashed) else (Spend(w), Done(()))
  }

  /** `npm view name@version dist.integrity`. */
  function RemoteIntegrity(w: World, name: string, version: string): (World, Reply<Option<string>>) {
    if w.budget == 0 then (w, Crashed)
    else if (name, version) !in w.registry.published then (Spend(w), Done(None))
    else
      var integrity := w.registry.published[(name, version)];
      (Spend(w), if StartsWith(integrity, "sha512-") then Done(Some(integrity)) else Failed(NoIntegrity(name)))
  }

  predicate HasTags(r: Registry, name: string) {
    exists k :: k in r.tags && k.0 == name
  }

  /** `npm dist-tag ls name`, which fails for a package without any dist-tag. */
  function RemoteDistTag(w: World, name: string, distTag: string): (World, Reply<Option<string>>) {
    if w.budget == 0 then (w, Crashed)
    else if !HasTags(w.registry, name) then (Spend(w), Failed(NoDistTags(name)))
    else (Spend(w), Done(if (name, distTag) in w.registry.tags then Some(w.registry.tags[(name, distTag)]) else None))
  }

  /** `npm publish tarball --tag`. The registry modelled here would even replace a stored version. */
  function NpmPublish(w: World, name: string, version: string, integrity: string, distTag: string): (World, Reply<()>) {
    if w.budget == 0 then (w, Crashed)
    else (World(Registry(w.registry.published[(name, version) := integrity],
        w.registry.tags[(name, distTag) := version]),
                w.budget - 1, w.writes + [Published(name, version, integrity, distTag)]), Done(()))
  }

  /** `npm dist-tag add name@version distTag`, which fails for a version the registry lacks. */
  function NpmDistTagAdd(w: World, name: string, version: string, distTag: string): (World, Reply<()>) {
    if w.budget == 0 then (w, Crashed)
    else if (name, version) !in w.registry.published then (Spend(w), Failed(NoSuchVersion(name)))
    else (World(w.registry.(tags := w.registry.tags[(name, distTag) := version]),
                w.budget - 1, w.writes + [Tagged(name, version, distTag)]), Done(()))
  }

  // ----- the publisher -----

  function EnsureDistTag(w: World, b: Bundle, name: string, distTag: string): (World, Reply<()>) {
    var (w1, tag) := RemoteDistTag(w, name, distTag);
    match tag
    case Crashed => (w1, Crashed)
    case Failed(e) => (w1, Failed(e))
    case Done(v) => if v == Some(b.version) then (w1, Done(())) else NpmDistTagAdd(w1, name, b.version, distTag)
  }

  function PublishIfMissing(w: World, b: Bundle, p: PackedPackage): (World, Reply<()>) {
    var (w1, existing) := RemoteIntegrity(w, p.name, b.version);
    match existing
    case Crashed => (w1, Crashed)
    case Failed(e) => (w1, Failed(e))
    case Done(None) => NpmPublish(w1, p.name, b.version, p.integrity, b.distTag)
    case Done(Some(integrity)) =>
      if integrity != p.integrity then (w1, Failed(DifferentIntegrity(p.name))) else (w1, Done(()))
  }

  function PublishPackage(w: World, b: Bundle, p: PackedPackage): (World, Reply<()>) {
    var (w1, r) := PublishIfMissing(w, b, p);
    if r.Done? then EnsureDistTag(w1, b, p.name, b.distTag) else (w1, r)
  }

  function PublishFrom(w: World, b: Bundle, i: nat): (World, Reply<()>)
    requires i <= |b.packages|
    decreases |b.packages| - i
  {
    if i == |b.packages| then (w, Done(()))
    else
      var (w1, r) := PublishPackage(w, b, b.packages[i]);
      if r.Done? then PublishFrom(w1, b, i + 1) else (w1, r)
  }

  function VerifyPackage(w: World, b: Bundle, p: PackedPackage): (World, Reply<()>) {
    var (w1, integrity) := RemoteIntegrity(w, p.name, b.version);
    match integrity
    case Crashed => (w1, Crashed)
    case Failed(e) => (w1, Failed(e))
    case Done(None) => (w1, Failed(PackageMissing(p.name)))
    case Done(Some(v)) =>
      if v != p.integrity then (w1, Failed(DifferentIntegrity(p.name)))
      else VerifyTag(w1, b, p.name, b.distTag)
  }

  function VerifyTag(w: World, b: Bundle, name: string, distTag: string): (World, Reply<()>) {
    var (w1, tag) := RemoteDistTag(w, name, distTag);
    match tag
    case Crashed => (w1, Crashed)
    case Failed(e) => (w1, Failed(e))
    case Done(v) => (w1, if v == Some(b.version) then Done(()) else Failed(WrongDistTag(name, distTag)))
  }

  function VerifyFrom(w: World, b: Bundle, i: nat): (World, Reply<()>)
    requires i <= |b.packages|
    decreases |b.packages| - i
  {
    if i == |b.packages| then (w, Done(()))
    else
      var (w1, r) := VerifyPackage(w, b, b.packages[i]);
      if r.Done? then VerifyFrom(w1, b, i + 1) else (w1, r)
  }

  /** `verifyRemote` followed by `verifyReleaseEntryDistTag`. */
  function VerifyAll(w: World, b: Bundle): (World, Reply<()>) {
    var (w1, r) := VerifyFrom(w, b, 0);
    if r.Done? then VerifyTag(w1, b, ENTRY, LATEST) else (w1, r)
  }

  /** The writing half of `publish`: every package, then the entry package's `latest`. */
  function PublishAll(w: World, b: Bundle): (World, Reply<()>) {
    var (w1, r) := PublishFrom(w, b, 0);
    if r.Done? then EnsureDistTag(w1, b, ENTRY, LATEST) else (w1, r)
  }

  function Publish(w: World, b: Bundle): (World, Reply<()>) {
    var (w1, ping) := Ping(w);
    if !ping.Done? then (w1, ping)
    else
      var (w2, identity) := Ping(w1);
      if !identity.Done? then (w2, identity)
      else
        var (w3, r) := PublishAll(w2, b);
        if r.Done? then VerifyAll(w3, b) else (w3, r)
  }

  function Verify(w: World, b: Bundle): (World, Reply<()>) {
    var (w1, ping) := Ping(w);
    if ping.Done? then VerifyAll(w1, b) else (w1, ping)
  }

  // ----- meaning -----

  /** What loading a bundle guarantees: one entry a name, and sha512 integrities. */
  ghost predicate Loaded(b: Bundle) {
    && (forall i, j :: 0 <= i < j < |b.packages| ==> b.packages[i].name != b.packages[j].name)
    && (forall p :: p in b.packages ==> StartsWith(p.integrity, "sha512-"))
  }

  ghost predicate Settled(r: Registry, b: Bundle, p: PackedPackage) {
    && (p.name, b.version) in r.published && r.published[(p.name, b.version)] == p.integrity
    && (p.name, b.distTag) in r.tags && r.tags[(p.name, b.distTag)] == b.version
  }

  /** Every package of the bundle is there with its manifest integrity and carries the bundle's tag. */
  ghost predicate Complete(r: Registry, b: Bundle) {
    forall p :: p in b.packages ==> Settled(r, b, p)
  }

  ghost predicate Exposed(r: Registry, b: Bundle) {
    (ENTRY, LATEST) in r.tags && r.tags[(ENTRY, LATEST)] == b.version
  }

  /** No stored version is lost or replaced. */
  ghost predicate Preserves(r: Registry, s: Registry) {
    forall k :: k in r.published ==> k in s.published && s.published[k] == r.published[k]
  }

  // ----- safety -----

  lemma PublishPackagePreserves(w: World, b: Bundle, p: PackedPackage)
    ensures Preserves(w.registry, PublishPackage(w, b, p).0.registry)
  {
  }

  lemma {:induction false} PublishFromPreserves(w: World, b: Bundle, i: nat)
    requires i <= |b.packages|
    ensures Preserves(w.registry, PublishFrom(w, b, i).0.registry)
    decreases |b.packages| - i
  {
    if i < |b.packages| {
      PublishPackagePreserves(w, b, b.packages[i]);
      PublishFromPreserves(PublishPackage(w, b, b.packages[i]).0, b, i + 1);
    }
  }

  lemma {:induction false} VerifyFromReadsOnly(w: World, b: Bundle, i: nat)
    requires i <= |b.packages|
    ensures var r := VerifyFrom(w, b, i).0; r.registry == w.registry && r.writes == w.writes
    decreases |b.packages| - i
  {
    if i < |b.packages| && VerifyPackage(w, b, b.packages[i]).1.Done? {
      VerifyFromReadsOnly(VerifyPackage(w, b, b.packages[i]).0, b, i + 1);
    }
  }

  /** Verification changes nothing. */
  lemma VerifyReadsOnly(w: World, b: Bundle)
    ensures var r := VerifyAll(w, b).0; r.registry == w.registry && r.writes == w.writes
    ensures var r := Verify(w, b).0; r.registry == w.registry && r.writes == w.writes
  {
    VerifyFromReadsOnly(w, b, 0);
    if w.budget > 0 { VerifyFromReadsOnly(Spend(w), b, 0); }
  }

  /** A step leaves all that the registry holds about other names as it is, wherever it is cut off. */
  lemma PublishPackageOthers(w: World, b: Bundle, p: PackedPackage, name: string)
    requires name != p.name
    ensures var r, s := w.registry, PublishPackage(w, b, p).0.registry;
            && (forall v :: (name, v) in s.published <==> (name, v) in r.published)
            && (forall v :: (name, v) in r.published ==> s.published[(name, v)] == r.published[(name, v)])
            && (forall t :: (name, t) in s.tags <==> (name, t) in r.tags)
            && (forall t :: (name, t) in r.tags ==> s.tags[(name, t)] == r.tags[(name, t)])
  {
  }

  /** A completed step settles its package, and steps for other packages keep what is settled. */
  lemma PublishPackageLocal(w: World, b: Bundle, p: PackedPackage)
    requires StartsWith(p.integrity, "sha512-")
    ensures var (w1, r) := PublishPackage(w, b, p);
            && (r.Done? ==> Settled(w1.registry, b, p))
            && (forall q: PackedPackage :: q.name != p.name && Settled(w.registry, b, q) ==> Settled(w1.registry, b, q))
            && (b.distTag != LATEST ==> (Exposed(w1.registry, b) <==> Exposed(w.registry, b)))
  {
  }

  /** Steps keep the packages that are already settled. */
  lemma PublishPackageKeeps(w: World, b: Bundle, p: PackedPackage, q: PackedPackage)
    requires Loaded(b) && p in b.packages && q in b.packages && Settled(w.registry, b, q)
    ensures Settled(PublishPackage(w, b, p).0.registry, b, q)
  {
    PublishPackageLocal(w, b, p);
    if q.name == p.name {
      assert q == p;
    }
  }

  lemma {:induction false} PublishFromSettles(w: World, b: Bundle, i: nat)
    requires Loaded(b) && i <= |b.packages|
    requires forall j :: 0 <= j < i ==> Settled(w.registry, b, b.packages[j])
    ensures var (w1, r) := PublishFrom(w, b, i);
            && (r.Done? ==> Complete(w1.registry, b))
            && (Complete(w.registry, b) ==> Complete(w1.registry, b))
            && (b.distTag != LATEST ==> (Exposed(w1.registry, b) <==> Exposed(w.registry, b)))
    decreases |b.packages| - i
  {
    if i < |b.packages| {
      var p := b.packages[i];
      var (w1, r) := PublishPackage(w, b, p);
      PublishPackageLocal(w, b, p);
      forall q | q in b.packages && Settled(w.registry, b, q) ensures Settled(w1.registry, b, q) {
        PublishPackageKeeps(w, b, p, q);
      }
      if r.Done? {
        PublishFromSettles(w1, b, i + 1);
      }
    }
  }

  /** `latest` of the entry package points at the bundle only when the whole bundle is out. */
  ghost predicate Safe(r: Registry, b: Bundle) {
    Exposed(r, b) ==> Complete(r, b)
  }

  lemma ExposeKeepsComplete(w: World, b: Bundle)
    requires Complete(w.registry, b)
    ensures Complete(EnsureDistTag(w, b, ENTRY, LATEST).0.registry, b)
  {
    var w1 := EnsureDistTag(w, b, ENTRY, LATEST).0;
    forall p | p in b.packages ensures Settled(w1.registry, b, p) {
      assert Settled(w.registry, b, p);
    }
  }

  /** What a run does before verifying leaves the registry safe, wherever the run is cut off. */
  lemma PublishAllSafe(w: World, b: Bundle)
    requires Loaded(b) && Safe(w.registry, b)
    requires b.distTag != LATEST
    ensures Safe(PublishAll(w, b).0.registry, b)
  {
    var (w1, r) := PublishFrom(w, b, 0);
    PublishFromSettles(w, b, 0);
    if r.Done? {
      ExposeKeepsComplete(w1, b);
    }
  }

  lemma PublishIsPublishAll(w: World, b: Bundle)
    ensures Publish(w, b).0.registry ==
            if w.budget < 2 then w.registry else PublishAll(w.(budget := w.budget - 2), b).0.registry
  {
    if w.budget >= 2 {
      VerifyReadsOnly(PublishAll(w.(budget := w.budget - 2), b).0, b);
    }
  }

  lemma PublishPreserves(w: World, b: Bundle)
    ensures Preserves(w.registry, Publish(w, b).0.registry)
  {
    PublishIsPublishAll(w, b);
    if w.budget >= 2 { PublishFromPreserves(w.(budget := w.budget - 2), b, 0); }
  }

  /** The registry after a series of runs, the k-th of which is cut off after budgets[k] commands. */
  function History(r: Registry, b: Bundle, budgets: seq<nat>): Registry
    decreases |budgets|
  {
    if budgets == [] then r else History(Publish(World(r, budgets[0], []), b).0.registry, b, budgets[1..])
  }

  // ----- uninterrupted runs -----

  function TagEffect(r: Registry, b: Bundle, name: string, distTag: string): (Registry, Reply<()>) {
    if !HasTags(r, name) then (r, Failed(NoDistTags(name)))
    else if (name, distTag) in r.tags && r.tags[(name, distTag)] == b.version then (r, Done(()))
    else if (name, b.version) !in r.published then (r, Failed(NoSuchVersion(name)))
    else (r.(tags := r.tags[(name, distTag) := b.version]), Done(()))
  }

  function Store(r: Registry, b: Bundle, p: PackedPackage): Registry {
    Registry(r.published[(p.name, b.version) := p.integrity], r.tags[(p.name, b.distTag) := b.version])
  }

  function PackageEffect(r: Registry, b: Bundle, p: PackedPackage): (Registry, Reply<()>) {
    if (p.name, b.version) !in r.published then TagEffect(Store(r, b, p), b, p.name, b.distTag)
    else
      var integrity := r.published[(p.name, b.version)];
      if !StartsWith(integrity, "sha512-") then (r, Failed(NoIntegrity(p.name)))
      else if integrity != p.integrity then (r, Failed(DifferentIntegrity(p.name)))
      else TagEffect(r, b, p.name, b.distTag)
  }

  function EffectFrom(r: Registry, b: Bundle, i: nat): (Registry, Reply<()>)
    requires i <= |b.packages|
    decreases |b.packages| - i
  {
    if i == |b.packages| then (r, Done(()))
    else
      var (r1, reply) := PackageEffect(r, b, b.packages[i]);
      if reply.Done? then EffectFrom(r1, b, i + 1) else (r1, reply)
  }

  /** What one uninterrupted run makes of the registry, and how it ends. */
  function Effect(r: Registry, b: Bundle): (Registry, Reply<()>) {
    var (r1, reply) := EffectFrom(r, b, 0);
    if reply.Done? then TagEffect(r1, b, ENTRY, LATEST) else (r1, reply)
  }

  /** A step that is not cut off has its effect; one that is cut off still has it ahead. */
  lemma EnsureDistTagEffect(w: World, b: Bundle, name: string, distTag: string)
    ensures var (w1, reply) := EnsureDistTag(w, b, name, distTag);
            && (!reply.Crashed? ==> (w1.registry, reply) == TagEffect(w.registry, b, name, distTag))
            && (reply.Crashed? ==> w1.registry == w.registry)
            && (w.budget >= 2 ==> !reply.Crashed? && w1.budget >= w.budget - 2)
  {
  }

  lemma StoreHasTags(r: Registry, b: Bundle, p: PackedPackage)
    ensures HasTags(Store(r, b, p), p.name)
  {
    assert (p.name, b.distTag) in Store(r, b, p).tags;
  }

  lemma PublishPackageEffect(w: World, b: Bundle, p: PackedPackage)
    requires StartsWith(p.integrity, "sha512-")
    ensures var (w1, reply) := PublishPackage(w, b, p);
            && (!reply.Crashed? ==> (w1.registry, reply) == PackageEffect(w.registry, b, p))
            && (w.budget >= 4 ==> !reply.Crashed? && w1.budget >= w.budget - 4)
            && PackageEffect(w1.registry, b, p) == PackageEffect(w.registry, b, p)
  {
    var (w0, r0) := PublishIfMissing(w, b, p);
    EnsureDistTagEffect(w0, b, p.name, b.distTag);
    StoreHasTags(w.registry, b, p);
    PackageEffectAgain(w.registry, b, p);
  }

  lemma TagEffectAgain(r: Registry, b: Bundle, name: string, distTag: string)
    ensures TagEffect(TagEffect(r, b, name, distTag).0, b, name, distTag) == TagEffect(r, b, name, distTag)
  {
    var r1 := TagEffect(r, b, name, distTag).0;
    if HasTags(r, name) {
      var k :| k in r.tags && k.0 == name;
      assert k in r1.tags;
    }
  }

  lemma PackageEffectAgain(r: Registry, b: Bundle, p: PackedPackage)
    requires StartsWith(p.integrity, "sha512-")
    ensures PackageEffect(PackageEffect(r, b, p).0, b, p) == PackageEffect(r, b, p)
    ensures PackageEffect(Store(r, b, p), b, p) == TagEffect(Store(r, b, p), b, p.name, b.distTag)
  {
    TagEffectAgain(r, b, p.name, b.distTag);
    TagEffectAgain(Store(r, b, p), b, p.name, b.distTag);
  }

  lemma SettledEffect(r: Registry, b: Bundle, p: PackedPackage)
    requires StartsWith(p.integrity, "sha512-") && Settled(r, b, p)
    ensures PackageEffect(r, b, p) == (r, Done(()))
  {
    assert (p.name, b.distTag) in r.tags;
  }

  lemma {:induction false} SkipSettled(r: Registry, b: Bundle, i: nat, j: nat)
    requires Loaded(b) && i <= j <= |b.packages|
    requires forall k :: i <= k < j ==> Settled(r, b, b.packages[k])
    ensures EffectFrom(r, b, i) == EffectFrom(r, b, j)
    decreases j - i
  {
    if i < j {
      SettledEffect(r, b, b.packages[i]);
      SkipSettled(r, b, i + 1, j);
    }
  }

  /** Starting the loop over, after it was cut off anywhere, has the effect it had ahead. */
  lemma {:induction false} ResumeFrom(w: World, b: Bundle, i: nat)
    requires Loaded(b) && i <= |b.packages|
    requires forall j :: 0 <= j < i ==> Settled(w.registry, b, b.packages[j])
    ensures var (w1, reply) := PublishFrom(w, b, i);
            && EffectFrom(w1.registry, b, 0) == EffectFrom(w.registry, b, i)
            && (!reply.Crashed? ==> (w1.registry, reply) == EffectFrom(w.registry, b, i))
            && (w.budget >= 4 * (|b.packages| - i) ==>
                  !reply.Crashed? && w1.budget >= w.budget - 4 * (|b.packages| - i))
    decreases |b.packages| - i
  {
    if i == |b.packages| {
      SkipSettled(w.registry, b, 0, i);
    } else {
      var p := b.packages[i];
      var (w1, reply) := PublishPackage(w, b, p);
      PublishPackageEffect(w, b, p);
      PublishPackageLocal(w, b, p);
      forall j | 0 <= j < i ensures Settled(w1.registry, b, b.packages[j]) {
        PublishPackageKeeps(w, b, p, b.packages[j]);
      }
      SkipSettled(w1.registry, b, 0, i);
      if reply.Done? {
        ResumeFrom(w1, b, i + 1);
        SettledEffect(w1.registry, b, p);
      }
    }
  }

  lemma EffectSettles(r: Registry, b: Bundle)
    requires Loaded(b) && EffectFrom(r, b, 0).1.Done?
    ensures Complete(EffectFrom(r, b, 0).0, b)
  {
    var w := World(r, 4 * |b.packages|, []);
    ResumeFrom(w, b, 0);
    PublishFromSettles(w, b, 0);
  }

  lemma CompleteEffect(r: Registry, b: Bundle)
    requires Loaded(b) && Complete(r, b)
    ensures EffectFrom(r, b, 0) == (r, Done(()))
  {
    SkipSettled(r, b, 0, |b.packages|);
  }

  /** A run that was cut off anywhere leaves the effect of a whole run unchanged. */
  lemma Resume(w: World, b: Bundle)
    requires Loaded(b)
    ensures Effect(Publish(w, b).0.registry, b) == Effect(w.registry, b)
  {
    PublishIsPublishAll(w, b);
    if w.budget >= 2 {
      var v := w.(budget := w.budget - 2);
      var (w1, reply) := PublishFrom(v, b, 0);
      ResumeFrom(v, b, 0);
      if reply.Done? {
        PublishFromSettles(v, b, 0);
        CompleteEffect(w1.registry, b);
        var w2 := EnsureDistTag(w1, b, ENTRY, LATEST).0;
        EnsureDistTagEffect(w1, b, ENTRY, LATEST);
        ExposeKeepsComplete(w1, b);
        CompleteEffect(w2.registry, b);
        TagEffectAgain(w1.registry, b, ENTRY, LATEST);
      }
    }
  }

  /** How many npm commands a run may issue. */
  function Enough(b: Bundle): nat {
    6 * |b.packages| + 5
  }

  lemma {:induction false} VerifyFromExact(w: World, b: Bundle, i: nat)
    requires Loaded(b) && i <= |b.packages| && w.budget >= 2 * (|b.packages| - i)
    ensures var (w1, reply) := VerifyFrom(w, b, i);
            && (reply.Done? <==> forall j :: i <= j < |b.packages| ==> Settled(w.registry, b, b.packages[j]))
            && !reply.Crashed? && w1.budget >= w.budget - 2 * (|b.packages| - i)
    decreases |b.packages| - i
  {
    if i < |b.packages| {
      var p := b.packages[i];
      var (w1, reply) := VerifyPackage(w, b, p);
      assert (p.name, b.distTag) in w.registry.tags ==> HasTags(w.registry, p.name);
      assert reply.Done? <==> Settled(w.registry, b, p);
      if reply.Done? {
        VerifyFromExact(w1, b, i + 1);
        assert forall j :: i < j < |b.packages| ==>
               (Settled(w.registry, b, b.packages[j]) <==> Settled(w1.registry, b, b.packages[j]));
      }
    }
  }

  /** Verification passes exactly on a complete bundle that `latest` points at. */
  lemma VerifyExact(w: World, b: Bundle)
    requires Loaded(b) && w.budget >= 2 * |b.packages| + 1
    ensures VerifyAll(w, b).1.Done? <==> Complete(w.registry, b) && Exposed(w.registry, b)
    ensures !VerifyAll(w, b).1.Crashed?
  {
    VerifyFromExact(w, b, 0);
    VerifyFromReadsOnly(w, b, 0);
    assert (ENTRY, LATEST) in w.registry.tags ==> HasTags(w.registry, ENTRY);
  }

  lemma PublishAllUninterrupted(w: World, b: Bundle)
    requires Loaded(b) && w.budget >= 4 * |b.packages| + 2
    ensures var (w1, reply) := PublishAll(w, b);
            && (w1.registry, reply) == Effect(w.registry, b)
            && w1.budget >= w.budget - (4 * |b.packages| + 2)
            && (reply.Done? ==> Complete(w1.registry, b) && Exposed(w1.registry, b))
  {
    var (w1, reply) := PublishFrom(w, b, 0);
    ResumeFrom(w, b, 0);
    if reply.Done? {
      EnsureDistTagEffect(w1, b, ENTRY, LATEST);
      PublishFromSettles(w, b, 0);
      ExposeKeepsComplete(w1, b);
    }
  }

  /** With enough commands a run has its whole effect, and if it gets to verifying, it verifies. */
  lemma Uninterrupted(w: World, b: Bundle)
    requires Loaded(b) && w.budget >= Enough(b)
    ensures var (w1, reply) := Publish(w, b); (w1.registry, reply) == Effect(w.registry, b)
    ensures Publish(w, b).1.Done? ==>
              Complete(Publish(w, b).0.registry, b) && Exposed(Publish(w, b).0.registry, b)
  {
    hide PublishAll, VerifyAll, Effect, Complete;
    var v := w.(budget := w.budget - 2);
    var (w1, reply) := PublishAll(v, b);
    PublishAllUninterrupted(v, b);
    assert Spend(Spend(w)) == v;
    assert Publish(w, b) == if reply.Done? then VerifyAll(w1, b) else (w1, reply);
    if reply.Done? {
      VerifyReadsOnly(w1, b);
      VerifyExact(w1, b);
      UnitReply(reply);
      UnitReply(VerifyAll(w1, b).1);
    }
  }

  lemma UnitReply(r: Reply<()>)
    ensures r.Done? ==> r == Done(())
  {
    if r.Done? {
      match r.value { case () => }
    }
  }

  lemma {:induction false} HistoryEffect(r: Registry, b: Bundle, budgets: seq<nat>)
    requires Loaded(b)
    ensures Effect(History(r, b, budgets), b) == Effect(r, b)
    decreases |budgets|
  {
    if budgets != [] {
      Resume(World(r, budgets[0], []), b);
      HistoryEffect(Publish(World(r, budgets[0], []), b).0.registry, b, budgets[1..]);
    }
  }

  /** Any series of interrupted runs, followed by a run that is not interrupted, ends as one
      uninterrupted run from the start would have ended: same registry, same outcome. */
  lemma PublicationConverges(r: Registry, b: Bundle, budgets: seq<nat>, n: nat, m: nat)
    requires Loaded(b) && n >= Enough(b) && m >= Enough(b)
    ensures var last := Publish(World(History(r, b, budgets), n, []), b);
            var once := Publish(World(r, m, []), b);
            last.0.registry == once.0.registry && last.1 == once.1
  {
    HistoryEffect(r, b, budgets);
    Uninterrupted(World(History(r, b, budgets), n, []), b);
    Uninterrupted(World(r, m, []), b);
  }

  lemma {:induction false} CompleteNoWrites(w: World, b: Bundle, i: nat)
    requires Loaded(b) && i <= |b.packages| && Complete(w.registry, b)
    ensures var (w1, reply) := PublishFrom(w, b, i);
            w1.registry == w.registry && w1.writes == w.writes && !reply.Failed?
    decreases |b.packages| - i
  {
    if i < |b.packages| {
      var p := b.packages[i];
      assert Settled(w.registry, b, p) && (p.name, b.distTag) in w.registry.tags;
      var (w1, reply) := PublishPackage(w, b, p);
      if reply.Done? { CompleteNoWrites(w1, b, i + 1); }
    }
  }

  /** Publishing again after a finished publication writes nothing and finishes, if not cut off. */
  lemma RerunWritesNothing(w: World, b: Bundle)
    requires Loaded(b) && Complete(w.registry, b) && Exposed(w.registry, b)
    ensures Publish(w, b).0.registry == w.registry && Publish(w, b).0.writes == w.writes
    ensures w.budget >= Enough(b) ==> Publish(w, b).1.Done?
  {
    hide PublishAll, VerifyAll, Loaded, Complete, Exposed;
    if w.budget >= 2 {
      var v := w.(budget := w.budget - 2);
      PublishAllNoWrites(v, b);
      VerifyReadsOnly(PublishAll(v, b).0, b);
    }
    if w.budget >= Enough(b) {
      hide Publish;
      Uninterrupted(w, b);
      CompleteExposedEffect(w.registry, b);
    }
  }

  lemma PublishAllNoWrites(w: World, b: Bundle)
    requires Loaded(b) && Complete(w.registry, b) && Exposed(w.registry, b)
    ensures PublishAll(w, b).0.registry == w.registry && PublishAll(w, b).0.writes == w.writes
  {
    CompleteNoWrites(w, b, 0);
    hide PublishFrom, Loaded, Complete;
  }

  lemma CompleteExposedEffect(r: Registry, b: Bundle)
    requires Loaded(b) && Complete(r, b) && Exposed(r, b)
    ensures Effect(r, b).1.Done?
  {
    CompleteEffect(r, b);
    hide Loaded, Complete, EffectFrom;
  }

  // ----- exactly when a run succeeds, and exactly when `latest` is guarded -----

  ghost predicate InBundle(b: Bundle, name: string) {
    exists p :: p in b.packages && p.name == name
  }

  ghost predicate NoConflict(r: Registry, b: Bundle, p: PackedPackage) {
    (p.name, b.version) in r.published ==> r.published[(p.name, b.version)] == p.integrity && HasTags(r, p.name)
  }

  /** What a caller can read off the registry beforehand: no bundle version is there with other
      content or without tags, and the entry package's `latest` can be moved. */
  ghost predicate Publishable(r: Registry, b: Bundle) {
    && (forall p :: p in b.packages ==> NoConflict(r, b, p))
    && (InBundle(b, ENTRY) || Exposed(r, b) || (HasTags(r, ENTRY) && (ENTRY, b.version) in r.published))
  }

  lemma PackageEffectDone(r: Registry, b: Bundle, p: PackedPackage)
    requires StartsWith(p.integrity, "sha512-")
    ensures PackageEffect(r, b, p).1.Done? <==> NoConflict(r, b, p)
    ensures !PackageEffect(r, b, p).1.Crashed?
  {
    StoreHasTags(r, b, p);
  }

  /** A step leaves what the registry says about other names. */
  lemma PackageEffectLocal(r: Registry, b: Bundle, p: PackedPackage, name: string)
    requires name != p.name
    ensures var r1 := PackageEffect(r, b, p).0;
            && (HasTags(r1, name) <==> HasTags(r, name))
            && (forall v :: (name, v) in r1.published <==> (name, v) in r.published)
            && (forall v :: (name, v) in r.published ==> r1.published[(name, v)] == r.published[(name, v)])
            && (forall t :: (name, t) in r1.tags <==> (name, t) in r.tags)
            && (forall t :: (name, t) in r.tags ==> r1.tags[(name, t)] == r.tags[(name, t)])
  {
    var r1 := PackageEffect(r, b, p).0;
    assert forall t :: (name, t) in r1.tags <==> (name, t) in r.tags;
    hide PackageEffect;
    if HasTags(r1, name) {
      var k :| k in r1.tags && k.0 == name;
      assert (name, k.1) in r.tags;
    }
    if HasTags(r, name) {
      var k :| k in r.tags && k.0 == name;
      assert (name, k.1) in r1.tags;
    }
  }

  lemma {:induction false} EffectFromDone(r: Registry, b: Bundle, i: nat)
    requires Loaded(b) && i <= |b.packages|
    ensures EffectFrom(r, b, i).1.Done? <==> forall j :: i <= j < |b.packages| ==> NoConflict(r, b, b.packages[j])
    decreases |b.packages| - i
  {
    if i < |b.packages| {
      var p := b.packages[i];
      PackageEffectDone(r, b, p);
      var r1 := PackageEffect(r, b, p).0;
      forall j | i < j < |b.packages| ensures NoConflict(r, b, b.packages[j]) <==> NoConflict(r1, b, b.packages[j]) {
        PackageEffectLocal(r, b, p, b.packages[j].name);
      }
      EffectFromDone(r1, b, i + 1);
    }
  }

  /** A name outside the bundle keeps its tags and versions. */
  lemma {:induction false} EffectFromLocal(r: Registry, b: Bundle, i: nat, name: string)
    requires i <= |b.packages| && !InBundle(b, name)
    ensures var r1 := EffectFrom(r, b, i).0;
            && (HasTags(r1, name) <==> HasTags(r, name))
            && (forall v :: (name, v) in r1.published <==> (name, v) in r.published)
            && (forall t :: (name, t) in r1.tags <==> (name, t) in r.tags)
            && (forall t :: (name, t) in r.tags ==> r1.tags[(name, t)] == r.tags[(name, t)])
    decreases |b.packages| - i
  {
    if i < |b.packages| {
      var p := b.packages[i];
      PackageEffectLocal(r, b, p, name);
      EffectFromLocal(PackageEffect(r, b, p).0, b, i + 1, name);
    }
  }

  /** An uninterrupted run succeeds exactly on a publishable registry. */
  lemma PublishSucceeds(w: World, b: Bundle)
    requires Loaded(b) && w.budget >= Enough(b)
    ensures Publish(w, b).1.Done? <==> Publishable(w.registry, b)
  {
    Uninterrupted(w, b);
    var r := w.registry;
    EffectFromDone(r, b, 0);
    if EffectFrom(r, b, 0).1.Done? {
      var r1 := EffectFrom(r, b, 0).0;
      EffectSettles(r, b);
      if InBundle(b, ENTRY) {
        var p :| p in b.packages && p.name == ENTRY;
        assert Settled(r1, b, p) && (p.name, b.distTag) in r1.tags;
      } else {
        EffectFromLocal(r, b, 0, ENTRY);
        assert (ENTRY, LATEST) in r.tags ==> HasTags(r, ENTRY);
      }
    }
    assert (forall p :: p in b.packages ==> NoConflict(r, b, p)) <==>
           (forall j :: 0 <= j < |b.packages| ==> NoConflict(r, b, b.packages[j]));
  }

  /** The bundle's own dist-tag cannot expose the entry package before the last package is out. */
  predicate Guarded(b: Bundle) {
    b.distTag != LATEST || forall i :: 0 <= i < |b.packages| - 1 ==> b.packages[i].name != ENTRY
  }

  /** A step for another package than the entry does not expose the entry. */
  lemma OtherPackageHides(w: World, b: Bundle, p: PackedPackage)
    requires p.name != ENTRY
    ensures Exposed(PublishPackage(w, b, p).0.registry, b) <==> Exposed(w.registry, b)
  {
  }

  /** The step that exposes the entry package also settles it. */
  lemma EntryStepSettles(w: World, b: Bundle, p: PackedPackage)
    requires StartsWith(p.integrity, "sha512-") && !Exposed(w.registry, b)
    requires b.distTag == LATEST && p.name == ENTRY
    ensures var w1 := PublishPackage(w, b, p).0; Exposed(w1.registry, b) ==> Settled(w1.registry, b, p)
  {
  }

  lemma {:induction false} GuardedFrom(w: World, b: Bundle, i: nat)
    requires Loaded(b) && Guarded(b) && b.distTag == LATEST && i <= |b.packages|
    requires !Exposed(w.registry, b) && forall j :: 0 <= j < i ==> Settled(w.registry, b, b.packages[j])
    ensures Safe(PublishFrom(w, b, i).0.registry, b)
    decreases |b.packages| - i
  {
    if i < |b.packages| {
      var p := b.packages[i];
      var (w1, r) := PublishPackage(w, b, p);
      PublishPackageLocal(w, b, p);
      forall j | 0 <= j < i ensures Settled(w1.registry, b, b.packages[j]) {
        PublishPackageKeeps(w, b, p, b.packages[j]);
      }
      if p.name != ENTRY {
        OtherPackageHides(w, b, p);
        if r.Done? { GuardedFrom(w1, b, i + 1); }
      } else {
        EntryStepSettles(w, b, p);
        assert i == |b.packages| - 1;
      }
    }
  }

  lemma GuardedSafe(w: World, b: Bundle)
    requires Loaded(b) && Guarded(b) && Safe(w.registry, b)
    ensures Safe(PublishAll(w, b).0.registry, b)
  {
    if b.distTag != LATEST {
      PublishAllSafe(w, b);
    } else {
      PublishFromSettles(w, b, 0);
      if !Exposed(w.registry, b) {
        GuardedFrom(w, b, 0);
      }
      if PublishFrom(w, b, 0).1.Done? {
        ExposeKeepsComplete(PublishFrom(w, b, 0).0, b);
      }
    }
  }

  /** Publishing the entry package under `latest` before the end exposes it early: the run that is
      cut off right after that command leaves an exposed, incomplete bundle. */
  lemma {:induction false} EarlyExposure(w: World, b: Bundle, k: nat, i: nat)
    requires Loaded(b) && k <= i < |b.packages| - 1
    requires b.distTag == LATEST && b.packages[i].name == ENTRY && w.budget == 3 * (i - k) + 2
    requires forall j :: k <= j < |b.packages| ==> (b.packages[j].name, b.version) !in w.registry.published
    ensures var r := PublishFrom(w, b, k).0.registry;
            Exposed(r, b) && (b.packages[|b.packages| - 1].name, b.version) !in r.published
    decreases i - k
  {
    var p := b.packages[k];
    StoreHasTags(w.registry, b, p);
    if k < i {
      var (w1, reply) := PublishPackage(w, b, p);
      assert w1.registry == Store(w.registry, b, p) && w1.budget == w.budget - 3 && reply.Done?;
      EarlyExposure(w1, b, k + 1, i);
    }
  }

  /** Exactly when the source's protection of `latest` works: a bundle is guarded if and only if
      every run, cut off anywhere, takes safe registries to safe registries. */
  lemma LatestGuarded(b: Bundle)
    requires Loaded(b)
    ensures Guarded(b) <==>
            forall r: Registry, n: nat :: Safe(r, b) ==> Safe(Publish(World(r, n, []), b).0.registry, b)
  {
    if Guarded(b) {
      forall r: Registry, n: nat | Safe(r, b) ensures Safe(Publish(World(r, n, []), b).0.registry, b) {
        var w := World(r, n, []);
        PublishIsPublishAll(w, b);
        if n >= 2 { GuardedSafe(w.(budget := n - 2), b); }
      }
    } else {
      var i :| 0 <= i < |b.packages| - 1 && b.packages[i].name == ENTRY;
      var empty := Registry(map[], map[]);
      var n := 3 * i + 4;
      var w := World(empty, n, []);
      EarlyExposure(w.(budget := n - 2), b, 0, i);
      PublishIsPublishAll(w, b);
      CutOffStays(w.(budget := n - 2), b, i);
      var r := Publish(w, b).0.registry;
      var last := b.packages[|b.packages| - 1];
      assert !Settled(r, b, last) && last in b.packages;
      assert Safe(empty, b) && !Safe(Publish(World(empty, n, []), b).0.registry, b);
    }
  }

  lemma {:induction false} CutOffFrom(w: World, b: Bundle, k: nat, i: nat)
    requires Loaded(b) && k <= i < |b.packages| && w.budget == 3 * (i - k) + 2
    requires forall j :: k <= j < |b.packages| ==> (b.packages[j].name, b.version) !in w.registry.published
    ensures PublishFrom(w, b, k).1.Crashed?
    decreases i - k
  {
    var p := b.packages[k];
    StoreHasTags(w.registry, b, p);
    if k < i {
      var (w1, reply) := PublishPackage(w, b, p);
      assert w1.registry == Store(w.registry, b, p) && w1.budget == w.budget - 3 && reply.Done?;
      CutOffFrom(w1, b, k + 1, i);
    }
  }

  lemma CutOffStays(w: World, b: Bundle, i: nat)
    requires Loaded(b) && i < |b.packages| && w.budget == 3 * i + 2 && w.registry == Registry(map[], map[])
    ensures PublishAll(w, b).0.registry == PublishFrom(w, b, 0).0.registry
  {
    CutOffFrom(w, b, 0, i);
  }

  /** Over any series of interrupted runs no stored integrity ever changes, and the entry package's
      `latest` is the bundle's version only while the whole bundle is out. */
  lemma {:induction false} HistorySafe(r: Registry, b: Bundle, budgets: seq<nat>)
    requires Loaded(b) && Guarded(b) && Safe(r, b)
    ensures Preserves(r, History(r, b, budgets)) && Safe(History(r, b, budgets), b)
    decreases |budgets|
  {
    if budgets != [] {
      var w := World(r, budgets[0], []);
      var r1 := Publish(w, b).0.registry;
      PublishPreserves(w, b);
      LatestGuarded(b);
      HistorySafe(r1, b, budgets[1..]);
    }
  }
}
