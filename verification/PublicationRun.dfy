/** The publisher as the program runs it: methods that issue npm commands one after the other
    and stop at the first error, each proved to compute the functions of Publication. */
module PublicationRun {
  import opened Basics
  import opened Publication
  import opened PublicationOutcome

  /** The command runner together with the registry it talks to. */
  class Npm {
    var registry: Registry
    var budget: nat
    var writes: seq<Write>

    constructor (registry: Registry, budget: nat)
      ensures View() == World(registry, budget, [])
    {
      this.registry, this.budget, writes := registry, budget, [];
    }

    function View(): World
      reads this
    {
      World(registry, budget, writes)
    }

    method Ping() returns (r: Reply<()>)
      modifies this
      ensures (View(), r) == Publication.Ping(old(View()))
    {
      if budget == 0 { return Crashed; }
      budget := budget - 1;
      r := Done(());
    }

    method ViewIntegrity(name: string, version: string) returns (r: Reply<Option<string>>)
      modifies this
      ensures (View(), r) == RemoteIntegrity(old(View()), name, version)
    {
      if budget == 0 { return Crashed; }
      budget := budget - 1;
      if (name, version) !in registry.published { return Done(None); }
      var integrity := registry.published[(name, version)];
      r := if StartsWith(integrity, "sha512-") then Done(Some(integrity)) else Failed(NoIntegrity(name));
    }

    method DistTag(name: string, distTag: string) returns (r: Reply<Option<string>>)
      modifies this
      ensures (View(), r) == RemoteDistTag(old(View()), name, distTag)
    {
      if budget == 0 { return Crashed; }
      budget := budget - 1;
      if !HasTags(registry, name) { return Failed(NoDistTags(name)); }
      r := Done(if (name, distTag) in registry.tags then Some(registry.tags[(name, distTag)]) else None);
    }

    method Publish(name: string, version: string, integrity: string, distTag: string) returns (r: Reply<()>)
      modifies this
      ensures (View(), r) == NpmPublish(old(View()), name, version, integrity, distTag)
    {
      if budget == 0 { return Crashed; }
      budget := budget - 1;
      registry := Registry(registry.published[(name, version) := integrity], registry.tags[(name, distTag) := version]);
      writes := writes + [Published(name, version, integrity, distTag)];
      r := Done(());
    }

    method DistTagAdd(name: string, version: string, distTag: string) returns (r: Reply<()>)
      modifies this
      ensures (View(), r) == NpmDistTagAdd(old(View()), name, version, distTag)
    {
      if budget == 0 { return Crashed; }
      budget := budget - 1;
      if (name, version) !in registry.published { return Failed(NoSuchVersion(name)); }
      registry := registry.(tags := registry.tags[(name, distTag) := version]);
      writes := writes + [Tagged(name, version, distTag)];
      r := Done(());
    }
  }

  class RegistryPublication {
    const bundle: Bundle
    const npm: Npm

    constructor (bundle: Bundle, npm: Npm)
      ensures this.bundle == bundle && this.npm == npm
    {
      this.bundle, this.npm := bundle, npm;
    }

    method Publish() returns (r: Reply<()>)
      modifies npm
      ensures (npm.View(), r) == Publication.Publish(old(npm.View()), bundle)
      ensures Preserves(old(npm.registry), npm.registry) && Explains(old(npm.View()), npm.View())
      ensures Loaded(bundle) && old(npm.budget) >= Enough(bundle) ==>
                PublishedAs(old(npm.registry), npm.registry, r, bundle)
    {
      PublishMeaning(npm.View(), bundle);
      hide PublishedAs, Preserves, Explains, VerifyAll, PublishFrom, Publication.EnsureDistTag;
      r := npm.Ping();
      if !r.Done? { return; }
      r := npm.Ping();
      if !r.Done? { return; }
      r := PublishPackages();
      if !r.Done? { return; }
      r := EnsureDistTag(ENTRY, LATEST);
      if !r.Done? { return; }
      r := VerifyRemote();
    }

    method PublishPackages() returns (r: Reply<()>)
      modifies npm
      ensures (npm.View(), r) == PublishFrom(old(npm.View()), bundle, 0)
    {
      hide Publication.EnsureDistTag, PublishIfMissing;
      ghost var start := npm.View();
      var i := 0;
      while i < |bundle.packages|
        invariant i <= |bundle.packages|
        invariant PublishFrom(npm.View(), bundle, i) == PublishFrom(start, bundle, 0)
      {
        var pkg := bundle.packages[i];
        r := PublishUnlessPresent(pkg);
        if !r.Done? { return; }
        r := EnsureDistTag(pkg.name, bundle.distTag);
        if !r.Done? { return; }
        i := i + 1;
      }
      r := Done(());
    }

    method PublishUnlessPresent(pkg: PackedPackage) returns (r: Reply<()>)
      modifies npm
      ensures (npm.View(), r) == PublishIfMissing(old(npm.View()), bundle, pkg)
    {
      var existing := npm.ViewIntegrity(pkg.name, bundle.version);
      match existing {
        case Crashed => return Crashed;
        case Failed(e) => return Failed(e);
        case Done(None) =>
          r := npm.Publish(pkg.name, bundle.version, pkg.integrity, bundle.distTag);
        case Done(Some(integrity)) =>
          r := if integrity != pkg.integrity then Failed(DifferentIntegrity(pkg.name)) else Done(());
      }
    }

    method EnsureDistTag(name: string, distTag: string) returns (r: Reply<()>)
      modifies npm
      ensures (npm.View(), r) == Publication.EnsureDistTag(old(npm.View()), bundle, name, distTag)
    {
      var tag := npm.DistTag(name, distTag);
      match tag {
        case Crashed => return Crashed;
        case Failed(e) => return Failed(e);
        case Done(v) =>
          if v == Some(bundle.version) { return Done(()); }
          r := npm.DistTagAdd(name, bundle.version, distTag);
      }
    }

    method Verify() returns (r: Reply<()>)
      modifies npm
      ensures (npm.View(), r) == Publication.Verify(old(npm.View()), bundle)
      ensures npm.registry == old(npm.registry) && npm.writes == old(npm.writes)
      ensures Loaded(bundle) && old(npm.budget) >= 2 * |bundle.packages| + 2 ==>
                VerifiedAs(old(npm.registry), r, bundle)
    {
      VerifyMeaning(npm.View(), bundle);
      hide VerifiedAs, VerifyAll;
      r := npm.Ping();
      if r.Done? { r := VerifyRemote(); }
    }

    /** `verifyRemote` and `verifyReleaseEntryDistTag`. */
    method VerifyRemote() returns (r: Reply<()>)
      modifies npm
      ensures (npm.View(), r) == VerifyAll(old(npm.View()), bundle)
    {
      ghost var start := npm.View();
      var i := 0;
      while i < |bundle.packages|
        invariant i <= |bundle.packages|
        invariant VerifyFrom(npm.View(), bundle, i) == VerifyFrom(start, bundle, 0)
      {
        r := VerifyOne(bundle.packages[i]);
        if !r.Done? { return; }
        i := i + 1;
      }
      r := CheckDistTag(ENTRY, LATEST);
    }

    method VerifyOne(pkg: PackedPackage) returns (r: Reply<()>)
      modifies npm
      ensures (npm.View(), r) == VerifyPackage(old(npm.View()), bundle, pkg)
    {
      var integrity := npm.ViewIntegrity(pkg.name, bundle.version);
      match integrity {
        case Crashed => return Crashed;
        case Failed(e) => return Failed(e);
        case Done(None) => return Failed(PackageMissing(pkg.name));
        case Done(Some(v)) =>
          if v != pkg.integrity { return Failed(DifferentIntegrity(pkg.name)); }
          r := CheckDistTag(pkg.name, bundle.distTag);
      }
    }

    method CheckDistTag(name: string, distTag: string) returns (r: Reply<()>)
      modifies npm
      ensures (npm.View(), r) == VerifyTag(old(npm.View()), bundle, name, distTag)
    {
      var tag := npm.DistTag(name, distTag);
      match tag {
        case Crashed => return Crashed;
        case Failed(e) => return Failed(e);
        case Done(v) => r := if v == Some(bundle.version) then Done(()) else Failed(WrongDistTag(name, distTag));
      }
    }
  }

  lemma PublishMeaning(w: World, b: Bundle)
    ensures var (w1, reply) := Publication.Publish(w, b);
            && Preserves(w.registry, w1.registry) && Explains(w, w1)
            && (Loaded(b) && w.budget >= Enough(b) ==> PublishedAs(w.registry, w1.registry, reply, b))
  {
    hide Publication.Publish, PublishedAs, Preserves, Explains;
    PublishPreserves(w, b);
    RunExplained(w, b);
    if Loaded(b) && w.budget >= Enough(b) { PublishOutcome(w, b); }
  }

  lemma VerifyMeaning(w: World, b: Bundle)
    ensures var (w1, reply) := Publication.Verify(w, b);
            && w1.registry == w.registry && w1.writes == w.writes
            && (Loaded(b) && w.budget >= 2 * |b.packages| + 2 ==> VerifiedAs(w.registry, reply, b))
  {
    hide Publication.Verify, VerifiedAs;
    VerifyReadsOnly(w, b);
    if Loaded(b) && w.budget >= 2 * |b.packages| + 2 { VerifyOutcome(w, b); }
  }
}
