/** `RegistryPublication` over releases: runs of different bundles against one registry, each of them cut
    off anywhere. Bundles share dist-tags, so a later release moves the tags of an earlier one. */
module PublicationSeries {
  import opened Publication

  datatype Run = Run(bundle: Bundle, budget: nat)

  /** The registry after the runs, in order. */
  function Series(r: Registry, runs: seq<Run>): Registry
    decreases |runs|
  {
    if runs == [] then r else Series(Publish(World(r, runs[0].budget, []), runs[0].bundle).0.registry, runs[1..])
  }

  /** Every package of the bundle is stored with its manifest integrity, whatever its tags say. */
  ghost predicate Present(r: Registry, b: Bundle) {
    forall p :: p in b.packages ==> Stored(r, b, p)
  }

  predicate Stored(r: Registry, b: Bundle, p: PackedPackage) {
    (p.name, b.version) in r.published && r.published[(p.name, b.version)] == p.integrity
  }

  /** Whichever of the bundles `latest` names, that whole bundle is stored. */
  ghost predicate Backed(r: Registry, bundles: set<Bundle>) {
    forall b :: b in bundles && Exposed(r, b) ==> Present(r, b)
  }

  /** Releases: loaded bundles, one for a version. */
  ghost predicate Releases(bundles: set<Bundle>) {
    && (forall b :: b in bundles ==> Loaded(b))
    && (forall b, c :: b in bundles && c in bundles && b.version == c.version ==> b == c)
  }

  ghost predicate Of(runs: seq<Run>, bundles: set<Bundle>) {
    forall run :: run in runs ==> run.bundle in bundles
  }

  // ----- one run -----

  /** A run leaves the entry package's `latest` alone or moves it to its own version. */
  ghost predicate MovesLatest(r: Registry, s: Registry, b: Bundle) {
    (ENTRY, LATEST) in s.tags ==>
      s.tags[(ENTRY, LATEST)] == b.version ||
        ((ENTRY, LATEST) in r.tags && r.tags[(ENTRY, LATEST)] == s.tags[(ENTRY, LATEST)])
  }

  lemma TagMovesLatest(w: World, b: Bundle, name: string, distTag: string)
    ensures MovesLatest(w.registry, EnsureDistTag(w, b, name, distTag).0.registry, b)
  {
  }

  lemma PackageMovesLatest(w: World, b: Bundle, p: PackedPackage)
    ensures MovesLatest(w.registry, PublishPackage(w, b, p).0.registry, b)
  {
    var (w1, r) := PublishIfMissing(w, b, p);
    assert MovesLatest(w.registry, w1.registry, b);
    TagMovesLatest(w1, b, p.name, b.distTag);
  }

  lemma {:induction false} PackagesMoveLatest(w: World, b: Bundle, i: nat)
    requires i <= |b.packages|
    ensures MovesLatest(w.registry, PublishFrom(w, b, i).0.registry, b)
    decreases |b.packages| - i
  {
    hide PublishPackage;
    if i < |b.packages| {
      PackageMovesLatest(w, b, b.packages[i]);
      PackagesMoveLatest(PublishPackage(w, b, b.packages[i]).0, b, i + 1);
    }
  }

  lemma RunMovesLatest(w: World, b: Bundle)
    ensures MovesLatest(w.registry, Publish(w, b).0.registry, b)
  {
    PublishIsPublishAll(w, b);
    hide Publish, PublishFrom, EnsureDistTag;
    if w.budget >= 2 {
      var v := w.(budget := w.budget - 2);
      PackagesMoveLatest(v, b, 0);
      TagMovesLatest(PublishFrom(v, b, 0).0, b, ENTRY, LATEST);
    }
  }

  lemma PresentPreserved(r: Registry, s: Registry, b: Bundle)
    requires Preserves(r, s) && Present(r, b)
    ensures Present(s, b)
  {
    forall p | p in b.packages ensures Stored(s, b, p) { assert Stored(r, b, p); }
  }

  lemma CompletePresent(r: Registry, b: Bundle)
    requires Complete(r, b)
    ensures Present(r, b)
  {
    forall p | p in b.packages ensures Stored(r, b, p) { assert Settled(r, b, p); }
  }

  lemma RunBacked(r: Registry, run: Run, bundles: set<Bundle>)
    requires Releases(bundles) && run.bundle in bundles && Guarded(run.bundle) && Backed(r, bundles)
    ensures Backed(Publish(World(r, run.budget, []), run.bundle).0.registry, bundles)
  {
    var w, c := World(r, run.budget, []), run.bundle;
    var s := Publish(w, c).0.registry;
    PublishPreserves(w, c);
    RunMovesLatest(w, c);
    LatestGuarded(c);
    hide Publish, Guarded, Preserves, Complete, Present, Loaded;
    forall b | b in bundles && Exposed(s, b) ensures Present(s, b) {
      if Exposed(r, b) {
        PresentPreserved(r, s, b);
      } else {
        assert b.version == c.version;
        assert Safe(r, b);
        CompletePresent(s, b);
      }
    }
  }

  // ----- all series -----

  lemma {:induction false} SeriesBacked(r: Registry, runs: seq<Run>, bundles: set<Bundle>)
    requires Releases(bundles) && Of(runs, bundles) && Backed(r, bundles)
    requires forall b :: b in bundles ==> Guarded(b)
    ensures Backed(Series(r, runs), bundles) && Preserves(r, Series(r, runs))
    decreases |runs|
  {
    if runs != [] {
      hide Backed, Releases, Guarded, Publish;
      var next := Publish(World(r, runs[0].budget, []), runs[0].bundle).0.registry;
      assert runs[0] in runs;
      RunBacked(r, runs[0], bundles);
      PublishPreserves(World(r, runs[0].budget, []), runs[0].bundle);
      SeriesBacked(next, runs[1..], bundles);
    }
  }

  /** An unguarded bundle can be exposed before it is stored, from an empty registry. */
  lemma UnguardedRun(b: Bundle) returns (n: nat)
    requires Loaded(b) && !Guarded(b)
    ensures var s := Publish(World(Registry(map[], map[]), n, []), b).0.registry; Exposed(s, b) && !Present(s, b)
  {
    var i :| 0 <= i < |b.packages| - 1 && b.packages[i].name == ENTRY;
    hide Publish, Loaded;
    n := 3 * i + 4;
    CutOffExposed(b, i);
    LastMissing(Publish(World(Registry(map[], map[]), n, []), b).0.registry, b);
  }

  lemma CutOffExposed(b: Bundle, i: nat)
    requires Loaded(b) && b.distTag == LATEST && i < |b.packages| - 1 && b.packages[i].name == ENTRY
    ensures var s := Publish(World(Registry(map[], map[]), 3 * i + 4, []), b).0.registry;
            Exposed(s, b) && (b.packages[|b.packages| - 1].name, b.version) !in s.published
  {
    hide Publish, PublishAll, PublishFrom, Loaded, Exposed;
    var w := World(Registry(map[], map[]), 3 * i + 4, []);
    var v := w.(budget := 3 * i + 2);
    EarlyExposure(v, b, 0, i);
    PublishIsPublishAll(w, b);
    CutOffStays(v, b, i);
  }

  lemma LastMissing(r: Registry, b: Bundle)
    requires b.packages != [] && (b.packages[|b.packages| - 1].name, b.version) !in r.published
    ensures !Present(r, b)
  {
    var last := b.packages[|b.packages| - 1];
    assert last in b.packages && !Stored(r, b, last);
  }

  /** Over every series of cut-off runs of any releases: whatever version the entry package's `latest`
      names, all of that release is stored with its integrities, also after later releases have moved the
      shared tags. This holds if and only if every release is guarded. */
  lemma ReleasesBacked(bundles: set<Bundle>)
    requires Releases(bundles)
    ensures (forall b :: b in bundles ==> Guarded(b)) <==>
            forall r: Registry, runs: seq<Run> :: Of(runs, bundles) && Backed(r, bundles) ==>
              Backed(Series(r, runs), bundles)
  {
    hide Guarded, Releases, Of, Backed, Series;
    if forall b :: b in bundles ==> Guarded(b) {
      forall r: Registry, runs: seq<Run> | Of(runs, bundles) && Backed(r, bundles)
        ensures Backed(Series(r, runs), bundles)
      {
        SeriesBacked(r, runs, bundles);
      }
    } else {
      var b :| b in bundles && !Guarded(b);
      var runs := UnguardedSeries(b, bundles);
    }
  }

  lemma UnguardedSeries(b: Bundle, bundles: set<Bundle>) returns (runs: seq<Run>)
    requires Releases(bundles) && b in bundles && !Guarded(b)
    ensures Of(runs, bundles) && Backed(Registry(map[], map[]), bundles)
    ensures !Backed(Series(Registry(map[], map[]), runs), bundles)
  {
    var n := UnguardedRun(b);
    hide Guarded, Publish, Loaded;
    runs := [Run(b, n)];
    assert runs[1..] == [];
    assert Series(Registry(map[], map[]), runs) == Publish(World(Registry(map[], map[]), n, []), b).0.registry;
  }

  // ----- registry by registry -----

  /** rs are the registries before, between and after the runs. */
  ghost predicate AreRuns(rs: seq<Registry>, runs: seq<Run>) {
    && |rs| == |runs| + 1
    && forall i :: 0 <= i < |runs| ==>
         rs[i + 1] == Publish(World(rs[i], runs[i].budget, []), runs[i].bundle).0.registry
  }

  lemma {:induction false} RunsAreSeries(rs: seq<Registry>, runs: seq<Run>)
    requires AreRuns(rs, runs)
    ensures rs[|runs|] == Series(rs[0], runs)
    decreases |runs|
  {
    hide Publish;
    if runs != [] { RunsAreSeries(rs[1..], runs[1..]); }
  }

  /** Between any two runs of guarded releases, the release that `latest` names is completely stored, and
      nothing stored is ever lost or replaced. */
  lemma RunsBacked(rs: seq<Registry>, runs: seq<Run>, bundles: set<Bundle>, i: nat)
    requires AreRuns(rs, runs) && i <= |runs| && Releases(bundles) && Of(runs, bundles)
    requires (forall b :: b in bundles ==> Guarded(b)) && Backed(rs[0], bundles)
    ensures Backed(rs[i], bundles) && Preserves(rs[0], rs[i])
  {
    hide Publish, Releases, Guarded, Backed;
    assert AreRuns(rs[..i + 1], runs[..i]);
    assert forall run :: run in runs[..i] ==> run in runs;
    RunsAreSeries(rs[..i + 1], runs[..i]);
    SeriesBacked(rs[0], runs[..i], bundles);
  }
}
