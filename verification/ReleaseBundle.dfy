/** `ReleaseBundle.create` and `ReleaseBundle.load`: a bundle holds each of its packages exactly once. */
module ReleaseBundle {
  import opened Basics
  import opened Packages
  import opened Publication
  import opened Sorting

  /** What inspecting one tarball yields; `checks` is the outcome of the payload, version, privacy,
      workspace-protocol and pin checks. */
  datatype Artifact = Artifact(name: string, tarball: string, checks: bool)

  datatype BundleError =
    | NoPackages
    | DuplicatePackage(name: string)
    | ChecksumMismatch(name: string)
    | UnexpectedOrDuplicate(name: string)
    | RejectedArtifact(name: string)
    | RejectedPackage(name: string)
    | MissingTarballs(names: set<string>)

  datatype BundleResult = Bundled(packages: seq<PackedPackage>) | Rejected(error: BundleError)

  /** The base64 SHA-512 of a tarball of the bundle directory. */
  type Digest = string -> string

  function Integrity(digest: Digest, tarball: string): (i: string)
    ensures StartsWith(i, "sha512-") && i[7..] == digest(tarball)
  {
    "sha512-" + digest(tarball)
  }

  /** What a manifest must be to be loaded. */
  ghost predicate Loadable(packages: seq<PackedPackage>, digest: Digest, checks: PackedPackage -> bool) {
    && packages != []
    && (forall i, j :: 0 <= i < j < |packages| ==> packages[i].name != packages[j].name)
    && (forall p :: p in packages ==> p.integrity == "sha512-" + digest(p.tarball) && checks(p))
  }

  function Names(ps: seq<PackedPackage>): (ns: seq<string>)
    ensures |ns| == |ps| && forall i :: 0 <= i < |ns| ==> ns[i] == ps[i].name
  {
    seq(|ps|, i requires 0 <= i < |ps| => ps[i].name)
  }

  /** The first package whose tarball does not match. */
  ghost predicate FirstBad(packages: seq<PackedPackage>, digest: Digest, checks: PackedPackage -> bool, k: int) {
    && 0 <= k < |packages| && !Matches(packages[k], digest, checks)
    && forall j :: 0 <= j < k ==> Matches(packages[j], digest, checks)
  }

  ghost predicate Matches(p: PackedPackage, digest: Digest, checks: PackedPackage -> bool) {
    p.integrity == "sha512-" + digest(p.tarball) && checks(p)
  }

  /** Load a manifest's packages: a bundle that loads is one the publisher can rely on. `checks` is the
      outcome of the path, SHA-256, payload, identity, privacy, workspace-protocol and pin checks of a
      package's tarball. */
  method Load(packages: seq<PackedPackage>, digest: Digest, checks: PackedPackage -> bool) returns (r: BundleResult)
    ensures r.Bundled? <==> Loadable(packages, digest, checks)
    ensures r.Bundled? ==>
              r.packages == packages && forall version, distTag :: Loaded(Bundle(version, distTag, r.packages))
    ensures r.Rejected? && r.error.DuplicatePackage? ==>
              exists i, j :: 0 <= i < j < |packages| && packages[i].name == packages[j].name == r.error.name
    ensures r.Rejected? && !r.error.DuplicatePackage? ==>
              if packages == [] then r.error == NoPackages
              else exists k :: FirstBad(packages, digest, checks, k) &&
                     r.error == if packages[k].integrity != "sha512-" + digest(packages[k].tarball)
                                then ChecksumMismatch(packages[k].name) else RejectedPackage(packages[k].name)
  {
    DistinctNames(packages);
    if packages == [] { return Rejected(NoPackages); }
    var names: set<string> := {};
    for i := 0 to |packages|
      invariant names == Elements(Names(packages[..i]))
      invariant Distinct(Names(packages[..i]))
    {
      var pkg := packages[i];
      NextName(packages, i);
      if pkg.name in names { return Rejected(DuplicatePackage(pkg.name)); }
      names := names + {pkg.name};
    }
    assert packages[..|packages|] == packages;
    for i := 0 to |packages|
      invariant forall k :: 0 <= k < i ==> Matches(packages[k], digest, checks)
    {
      var pkg := packages[i];
      assert pkg in packages;
      assert pkg.integrity != Integrity(digest, pkg.tarball) || !checks(pkg) ==> FirstBad(packages, digest, checks, i);
      if pkg.integrity != Integrity(digest, pkg.tarball) {
        return Rejected(ChecksumMismatch(pkg.name));
      }
      if !checks(pkg) {
        return Rejected(RejectedPackage(pkg.name));
      }
    }
    r := Bundled(packages);
  }

  lemma NextName(packages: seq<PackedPackage>, i: nat)
    requires i < |packages|
    ensures var before, after := Names(packages[..i]), Names(packages[..i + 1]);
            && Elements(after) == Elements(before) + {packages[i].name}
            && (Distinct(before) && packages[i].name !in Elements(before) ==> Distinct(after))
    ensures packages[i].name in Elements(Names(packages[..i])) ==>
              exists k :: 0 <= k < i && packages[k].name == packages[i].name
  {
    var before, last := Names(packages[..i]), packages[i].name;
    assert Names(packages[..i + 1]) == before + [last];
    if last in Elements(before) {
      var k :| 0 <= k < i && before[k] == last;
      assert packages[k].name == last;
    } else if Distinct(before) {
      DistinctConcat(before, [last]);
    }
  }

  lemma DistinctNames(packages: seq<PackedPackage>)
    ensures Distinct(Names(packages)) <==>
            forall i, j :: 0 <= i < j < |packages| ==> packages[i].name != packages[j].name
  {
    if Distinct(Names(packages)) {
      forall i, j | 0 <= i < j < |packages| ensures packages[i].name != packages[j].name {
        assert Names(packages)[i] != Names(packages)[j];
      }
    }
  }

  function ArtifactNames(s: seq<Artifact>): (ns: seq<string>)
    ensures |ns| == |s| && forall i :: 0 <= i < |ns| ==> ns[i] == s[i].name
  {
    seq(|s|, i requires 0 <= i < |s| => s[i].name)
  }

  function Packed(tarballs: seq<Artifact>, digest: Digest): (ps: seq<PackedPackage>)
    ensures |ps| == |tarballs| && forall i :: 0 <= i < |ps| ==>
              && ps[i].name == tarballs[i].name && ps[i].tarball == tarballs[i].tarball
              && ps[i].integrity == "sha512-" + digest(tarballs[i].tarball)
  {
    seq(|tarballs|, i requires 0 <= i < |tarballs| =>
      PackedPackage(tarballs[i].name, tarballs[i].tarball, Integrity(digest, tarballs[i].tarball)))
  }

  function ByPackageName(collate: Collation): Comparator<PackedPackage> {
    (a: PackedPackage, b: PackedPackage) => collate(a.name, b.name)
  }

  lemma ByPackageNameTotal(collate: Collation)
    requires IsCollation(collate)
    ensures Total(ByPackageName(collate))
  {
    var cmp := ByPackageName(collate);
    forall a, b ensures Signs(cmp, a, b) { assert Signs(collate, a.name, b.name); }
    forall a, b, c ensures Chains(cmp, a, b, c) { assert Chains(collate, a.name, b.name, c.name); }
  }

  /** The tarball that an expected name cannot be struck off for, or that fails its checks. */
  ghost predicate FirstRejected(expected: seq<string>, tarballs: seq<Artifact>, k: int) {
    && 0 <= k < |tarballs| && !Accepted(expected, tarballs, k)
    && forall j :: 0 <= j < k ==> Accepted(expected, tarballs, j)
  }

  ghost predicate Accepted(expected: seq<string>, tarballs: seq<Artifact>, k: int)
    requires 0 <= k < |tarballs|
  {
    NewName(expected, tarballs, k) && tarballs[k].checks
  }

  ghost predicate NewName(expected: seq<string>, tarballs: seq<Artifact>, k: int)
    requires 0 <= k < |tarballs|
  {
    tarballs[k].name in expected && forall j :: 0 <= j < k ==> tarballs[j].name != tarballs[k].name
  }

  /** Match the packed tarballs with the expected packages by striking each name off a list:
      it succeeds exactly when the tarballs and the expected names correspond one to one. */
  method Create(expected: seq<string>, tarballs: seq<Artifact>, digest: Digest, collate: Collation)
    returns (r: BundleResult)
    requires IsCollation(collate)
    ensures r.Bundled? <==>
              && Distinct(ArtifactNames(tarballs)) && Elements(ArtifactNames(tarballs)) == Elements(expected)
              && forall a :: a in tarballs ==> a.checks
    ensures r.Bundled? ==>
              && multiset(r.packages) == multiset(Packed(tarballs, digest))
              && forall i, j :: 0 <= i < j < |r.packages| ==> collate(r.packages[i].name, r.packages[j].name) <= 0
    ensures r.Rejected? ==>
              if forall k :: 0 <= k < |tarballs| ==> Accepted(expected, tarballs, k) then
                r.error == MissingTarballs(Elements(expected) - Elements(ArtifactNames(tarballs)))
              else exists k :: FirstRejected(expected, tarballs, k) &&
                     r.error == if NewName(expected, tarballs, k) then RejectedArtifact(tarballs[k].name)
                                else UnexpectedOrDuplicate(tarballs[k].name)
    ensures r.Rejected? && r.error.MissingTarballs? ==>
              r.error.names == Elements(expected) - Elements(ArtifactNames(tarballs)) != {}
  {
    hide IsCollation;
    var missing := Elements(expected);
    for i := 0 to |tarballs|
      invariant missing == Elements(expected) - Elements(ArtifactNames(tarballs[..i]))
      invariant Elements(ArtifactNames(tarballs[..i])) <= Elements(expected)
      invariant Distinct(ArtifactNames(tarballs[..i]))
      invariant forall a :: a in tarballs[..i] ==> a.checks
      invariant forall j :: 0 <= j < i ==> Accepted(expected, tarballs, j)
    {
      var a := tarballs[i];
      assert tarballs[..i + 1] == tarballs[..i] + [a];
      assert ArtifactNames(tarballs[..i + 1]) == ArtifactNames(tarballs[..i]) + [a.name];
      assert a.name in Elements(ArtifactNames(tarballs)) by { assert ArtifactNames(tarballs)[i] == a.name; }
      assert a.name in missing <==> NewName(expected, tarballs, i) by { StruckOff(expected, tarballs, i); }
      assert FirstRejected(expected, tarballs, i) <==> !Accepted(expected, tarballs, i);
      if a.name !in missing {
        if a.name in Elements(expected) {
          var k :| 0 <= k < i && ArtifactNames(tarballs[..i])[k] == a.name;
          assert ArtifactNames(tarballs)[k] == ArtifactNames(tarballs)[i];
        }
        return Rejected(UnexpectedOrDuplicate(a.name));
      }
      if !a.checks {
        assert a in tarballs;
        return Rejected(RejectedArtifact(a.name));
      }
      DistinctConcat(ArtifactNames(tarballs[..i]), [a.name]);
      missing := missing - {a.name};
    }
    assert tarballs[..|tarballs|] == tarballs;
    if missing != {} { return Rejected(MissingTarballs(missing)); }
    assert Elements(expected) <= Elements(ArtifactNames(tarballs)) by {
      forall n | n in Elements(expected) ensures n in Elements(ArtifactNames(tarballs)) {
        assert n !in missing;
      }
    }
    ByPackageNameTotal(collate);
    SortSorts(Packed(tarballs, digest), ByPackageName(collate));
    r := Bundled(Sort(Packed(tarballs, digest), ByPackageName(collate)));
  }

  lemma StruckOff(expected: seq<string>, tarballs: seq<Artifact>, i: nat)
    requires i < |tarballs|
    ensures tarballs[i].name in Elements(expected) - Elements(ArtifactNames(tarballs[..i])) <==>
            NewName(expected, tarballs, i)
  {
    var names := ArtifactNames(tarballs[..i]);
    forall j | 0 <= j < i ensures names[j] == tarballs[j].name {}
    if tarballs[i].name in names {
      var k :| 0 <= k < |names| && names[k] == tarballs[i].name;
    }
    forall j | 0 <= j < i ensures tarballs[j].name in names { assert names[j] in names; }
  }

  /** Whatever is created can be loaded again, wherever the checks of a packed package agree with those of
      its tarball. */
  lemma CreatedLoads(tarballs: seq<Artifact>, packages: seq<PackedPackage>, digest: Digest,
                     checks: PackedPackage -> bool)
    requires tarballs != [] && Distinct(ArtifactNames(tarballs))
    requires multiset(packages) == multiset(Packed(tarballs, digest))
    requires forall a :: a in tarballs ==> checks(PackedPackage(a.name, a.tarball, "sha512-" + digest(a.tarball)))
    ensures Loadable(packages, digest, checks)
  {
    var packed := Packed(tarballs, digest);
    SameElements(packages, packed);
    assert Names(packed) == ArtifactNames(tarballs);
    PermutedNames(packed, packages);
    forall p | p in packages ensures p.integrity == "sha512-" + digest(p.tarball) && checks(p) {
      var i :| 0 <= i < |packed| && packed[i] == p;
      assert tarballs[i] in tarballs;
      assert p == PackedPackage(tarballs[i].name, tarballs[i].tarball, "sha512-" + digest(tarballs[i].tarball));
    }
  }

  lemma PermutedNames(s: seq<PackedPackage>, t: seq<PackedPackage>)
    requires multiset(s) == multiset(t) && Distinct(Names(s))
    ensures forall i, j :: 0 <= i < j < |t| ==> t[i].name != t[j].name
  {
    DistinctNames(s);
    assert Distinct(s);
    DistinctByCount(s);
    DistinctByCount(t);
    SameElements(s, t);
    forall i, j | 0 <= i < j < |t| ensures t[i].name != t[j].name {
      assert t[i] in s && t[j] in s && t[i] != t[j];
      var k :| 0 <= k < |s| && s[k] == t[i];
      var l :| 0 <= l < |s| && s[l] == t[j];
      assert if k < l then s[k].name != s[l].name else s[l].name != s[k].name;
    }
  }
}
