/** `archived-agent-notes`: an append-only manifest that seals the archived files by content hash, and
    the command that checks an edit of the archive against the committed manifest. */
module ArchiveManifest {
  import opened Basics
  import opened Sorting
  import opened Packages

  type Content = seq<bv8>
  type Files = map<string, string>
  type Tree = map<string, Content>

  datatype Fault =
    | EntryMissing(path: string) | EntryChanged(path: string)
    | ArtifactMissing(path: string) | ContentChanged(path: string)
    | Unsealed(path: string)

  /** `order` is the iteration order of an object or map with the given keys. */
  ghost predicate Enumerates(order: seq<string>, keys: set<string>) {
    Distinct(order) && Elements(order) == keys
  }

  /** Every entry of the baseline is an entry of the current manifest. */
  ghost predicate Extends(baseline: Files, current: Files) {
    forall p :: p in baseline ==> p in current && current[p] == baseline[p]
  }

  /** The manifest that seals exactly this tree. */
  function SealOf(artifacts: Tree, hash: Content -> string): Files {
    map p | p in artifacts :: hash(artifacts[p])
  }

  function Extended(existing: Files, artifacts: Tree, hash: Content -> string): Files {
    SealOf(artifacts, hash) + existing
  }

  // ----- validateArchiveManifestExtension -----

  /** Rejects changes and removals of sealed entries, one fault for each and nothing else. */
  method ValidateExtension(order: seq<string>, baseline: Files, current: Files) returns (errors: seq<Fault>)
    requires Enumerates(order, baseline.Keys)
    ensures errors == [] <==> Extends(baseline, current)
    ensures forall p :: EntryMissing(p) in errors <==> p in baseline && p !in current
    ensures forall p :: EntryChanged(p) in errors <==> p in baseline && p in current && current[p] != baseline[p]
    ensures forall e :: e in errors ==> e.EntryMissing? || e.EntryChanged?
    ensures Distinct(errors)
  {
    errors := [];
    for i := 0 to |order|
      invariant Distinct(errors) && forall e :: e in errors ==> e.path in order[..i]
      invariant forall p :: EntryMissing(p) in errors <==> p in order[..i] && p !in current
      invariant forall p :: EntryChanged(p) in errors <==> p in order[..i] && p in current && current[p] != baseline[p]
      invariant forall e :: e in errors ==> e.EntryMissing? || e.EntryChanged?
    {
      var path := order[i];
      assert path in Elements(order);
      assert order[..i + 1] == order[..i] + [path];
      assert path !in order[..i];
      if path !in current {
        errors := errors + [EntryMissing(path)];
      } else if current[path] != baseline[path] {
        errors := errors + [EntryChanged(path)];
      }
    }
    EntryFaultsExact(order, baseline, current, errors);
  }

  lemma EntryFaultsExact(order: seq<string>, baseline: Files, current: Files, errors: seq<Fault>)
    requires Enumerates(order, baseline.Keys)
    requires forall p :: EntryMissing(p) in errors <==> p in order[..|order|] && p !in current
    requires forall p :: EntryChanged(p) in errors <==>
             p in order[..|order|] && p in current && p in baseline && current[p] != baseline[p]
    requires forall e :: e in errors ==> e.EntryMissing? || e.EntryChanged?
    ensures errors == [] <==> Extends(baseline, current)
    ensures forall p :: p in order[..|order|] <==> p in baseline
  {
    assert order[..|order|] == order;
    assert forall p :: p in baseline <==> p in Elements(order);
    if !Extends(baseline, current) {
      var p :| p in baseline && !(p in current && current[p] == baseline[p]);
      assert EntryMissing(p) in errors || EntryChanged(p) in errors;
    }
    if errors != [] {
      var e := errors[0];
      assert e in errors;
      assert e == EntryMissing(e.path) || e == EntryChanged(e.path);
    }
  }

  // ----- extendArchiveManifest -----

  /** Keeps every sealed entry, seals what is new in sorted order, and reports exactly the sealed
      paths that the tree lost or changed. */
  method Extend(order: seq<string>, existing: Files, paths: seq<string>, artifacts: Tree,
                collate: Comparator<string>, hash: Content -> string)
    returns (files: Files, added: seq<string>, errors: seq<Fault>)
    requires Enumerates(order, existing.Keys) && Enumerates(paths, artifacts.Keys) && Total(collate)
    ensures files == Extended(existing, artifacts, hash)
    ensures Distinct(added) && Sorted(added, collate) && Elements(added) == artifacts.Keys - existing.Keys
    ensures errors == [] <==> Extends(existing, SealOf(artifacts, hash))
    ensures forall p :: ArtifactMissing(p) in errors <==> p in existing && p !in artifacts
    ensures forall p :: ContentChanged(p) in errors <==>
            p in existing && p in artifacts && hash(artifacts[p]) != existing[p]
    ensures forall e :: e in errors ==> e.ArtifactMissing? || e.ContentChanged?
    ensures Distinct(errors)
    ensures forall p :: p in files <==> p in existing || p in artifacts
    ensures forall p :: p in files ==> files[p] == if p in existing then existing[p] else hash(artifacts[p])
  {
    errors := [];
    for i := 0 to |order|
      invariant Distinct(errors) && forall e :: e in errors ==> e.path in order[..i]
      invariant forall p :: ArtifactMissing(p) in errors <==> p in order[..i] && p !in artifacts
      invariant forall p :: ContentChanged(p) in errors <==>
                p in order[..i] && p in artifacts && hash(artifacts[p]) != existing[p]
      invariant forall e :: e in errors ==> e.ArtifactMissing? || e.ContentChanged?
    {
      var path := order[i];
      assert path in Elements(order);
      assert order[..i + 1] == order[..i] + [path];
      assert path !in order[..i];
      if path !in artifacts {
        errors := errors + [ArtifactMissing(path)];
      } else if hash(artifacts[path]) != existing[path] {
        errors := errors + [ContentChanged(path)];
      }
    }
    FaultsExact(order, existing, artifacts, hash, errors);
    files, added := Append(existing, paths, artifacts, collate, hash);
  }

  lemma FaultsExact(order: seq<string>, existing: Files, artifacts: Tree, hash: Content -> string, errors: seq<Fault>)
    requires Enumerates(order, existing.Keys)
    requires forall p :: ArtifactMissing(p) in errors <==> p in order[..|order|] && p !in artifacts
    requires forall p :: ContentChanged(p) in errors <==>
             p in order[..|order|] && p in artifacts && p in existing && hash(artifacts[p]) != existing[p]
    requires forall e :: e in errors ==> e.ArtifactMissing? || e.ContentChanged?
    ensures errors == [] <==> Extends(existing, SealOf(artifacts, hash))
    ensures forall p :: p in order[..|order|] <==> p in existing
  {
    assert order[..|order|] == order;
    assert forall p :: p in existing <==> p in Elements(order);
    if !Extends(existing, SealOf(artifacts, hash)) {
      var p :| p in existing && !(p in artifacts && hash(artifacts[p]) == existing[p]);
      assert ArtifactMissing(p) in errors || ContentChanged(p) in errors;
    }
    if errors != [] {
      var p := errors[0].path;
      assert errors[0] in errors;
      assert errors[0] == ArtifactMissing(p) || errors[0] == ContentChanged(p);
      assert p in Elements(order);
      assert !(p in artifacts && hash(artifacts[p]) == existing[p]);
    }
  }

  method Append(existing: Files, paths: seq<string>, artifacts: Tree, collate: Comparator<string>,
                hash: Content -> string)
    returns (files: Files, added: seq<string>)
    requires Enumerates(paths, artifacts.Keys) && Total(collate)
    ensures files == Extended(existing, artifacts, hash)
    ensures Distinct(added) && Sorted(added, collate) && Elements(added) == artifacts.Keys - existing.Keys
  {
    hide Appended, Sorted, Distinct, Sort, Total, Enumerates, Elements;
    files, added := existing, [];
    var sorted := Sort(paths, collate);
    AppendStart(existing, paths, artifacts, collate, hash);
    for i := 0 to |sorted|
      invariant Appended(existing, artifacts, sorted, i, files, added, collate, hash)
    {
      var path := sorted[i];
      AppendStep(existing, artifacts, sorted, i, files, added, collate, hash);
      if path !in files {
        files := files[path := hash(artifacts[path])];
        added := added + [path];
      }
    }
    AppendEnd(existing, artifacts, sorted, files, added, collate, hash);
  }

  lemma AppendStart(existing: Files, paths: seq<string>, artifacts: Tree, collate: Comparator<string>,
                    hash: Content -> string)
    requires Enumerates(paths, artifacts.Keys) && Total(collate)
    ensures var sorted := Sort(paths, collate);
            && Elements(sorted) == artifacts.Keys && Distinct(sorted) && Sorted(sorted, collate)
            && Appended(existing, artifacts, sorted, 0, existing, [], collate, hash)
  {
    var sorted := Sort(paths, collate);
    SortSorts(paths, collate);
    SameElements(paths, sorted);
    DistinctByCount(paths);
    DistinctByCount(sorted);
    SameElementSets(paths, sorted);
  }

  lemma AppendEnd(existing: Files, artifacts: Tree, sorted: seq<string>,
                  files: Files, added: seq<string>, collate: Comparator<string>, hash: Content -> string)
    requires Elements(sorted) == artifacts.Keys
    requires Appended(existing, artifacts, sorted, |sorted|, files, added, collate, hash)
    ensures files == Extended(existing, artifacts, hash)
    ensures Distinct(added) && Sorted(added, collate) && Elements(added) == artifacts.Keys - existing.Keys
  {
    assert sorted[..|sorted|] == sorted;
    hide Elements, Sorted, Distinct;
    assert files == Extended(existing, artifacts, hash);
  }

  /** The first i paths have been handled. */
  ghost predicate Appended(existing: Files, artifacts: Tree, sorted: seq<string>, i: nat,
                           files: Files, added: seq<string>, collate: Comparator<string>, hash: Content -> string)
    requires i <= |sorted| && Elements(sorted) == artifacts.Keys
  {
    && files.Keys == existing.Keys + Elements(sorted[..i])
    && (forall p :: p in files ==>
          files[p] == if p in existing then existing[p] else assert p in Elements(sorted); hash(artifacts[p]))
    && Elements(added) == Elements(sorted[..i]) - existing.Keys
    && Distinct(added) && Sorted(added, collate)
  }

  lemma AppendStep(existing: Files, artifacts: Tree, sorted: seq<string>, i: nat,
                   files: Files, added: seq<string>, collate: Comparator<string>, hash: Content -> string)
    requires i < |sorted| && Elements(sorted) == artifacts.Keys && Distinct(sorted) && Sorted(sorted, collate)
    requires Appended(existing, artifacts, sorted, i, files, added, collate, hash)
    ensures sorted[i] in artifacts
    ensures var p := sorted[i];
            if p in files then Appended(existing, artifacts, sorted, i + 1, files, added, collate, hash)
            else Appended(existing, artifacts, sorted, i + 1, files[p := hash(artifacts[p])], added + [p], collate,
                hash)
  {
    hide Distinct, Sorted, Elements;
    var p := sorted[i];
    NextElement(sorted, i);
    if p in files {
      assert Elements(added) == Elements(sorted[..i + 1]) - existing.Keys;
    } else {
      PlacedBefore(sorted, i, added, collate);
      NextElement(added + [p], |added|);
      assert Elements(added + [p]) == Elements(sorted[..i + 1]) - existing.Keys;
    }
  }

  lemma SameElementSets<T>(s: seq<T>, t: seq<T>)
    requires forall x :: x in s <==> x in t
    ensures Elements(s) == Elements(t)
  {
  }

  lemma NextElement<T>(s: seq<T>, i: nat)
    requires i < |s|
    ensures Elements(s[..i + 1]) == Elements(s[..i]) + {s[i]}
    ensures s[i] in Elements(s) && (i + 1 == |s| ==> s[..i + 1] == s)
    ensures Distinct(s) ==> s[i] !in Elements(s[..i])
  {
    assert s[..i + 1] == s[..i] + [s[i]];
  }

  lemma PlacedBefore(sorted: seq<string>, i: nat, added: seq<string>, collate: Comparator<string>)
    requires i < |sorted| && Distinct(sorted) && Sorted(sorted, collate)
    requires Elements(added) <= Elements(sorted[..i]) && Distinct(added) && Sorted(added, collate)
    ensures Distinct(added + [sorted[i]]) && Sorted(added + [sorted[i]], collate)
    ensures (added + [sorted[i]])[..|added|] == added
  {
    var path := sorted[i];
    NextElement(sorted, i);
    forall a | a in added ensures collate(a, path) <= 0 && a != path {
      assert a in Elements(added);
      var k :| 0 <= k < i && sorted[..i][k] == a;
    }
    RaiseTop(added, path, collate);
  }

  // ----- what an extension keeps -----

  /** An error-free extension seals exactly the tree, over all that was sealed before. */
  lemma ExtendedSeals(existing: Files, artifacts: Tree, hash: Content -> string)
    ensures Extends(existing, Extended(existing, artifacts, hash))
    ensures Extends(existing, SealOf(artifacts, hash)) <==>
            Extended(existing, artifacts, hash) == SealOf(artifacts, hash)
  {
    var e, s := Extended(existing, artifacts, hash), SealOf(artifacts, hash);
    if Extends(existing, s) {
      assert e == s;
    }
    if e == s {
      forall p | p in existing ensures p in s && s[p] == existing[p] { assert e[p] == existing[p]; }
    }
  }

  /** Extending again with the same artifacts changes nothing, adds nothing and finds no fault if and
      only if the first extension found none. */
  lemma ExtendAgain(existing: Files, artifacts: Tree, hash: Content -> string)
    ensures var once := Extended(existing, artifacts, hash);
            && Extended(once, artifacts, hash) == once
            && artifacts.Keys - once.Keys == {}
            && (Extends(once, SealOf(artifacts, hash)) <==> Extends(existing, SealOf(artifacts, hash)))
  {
    var once := Extended(existing, artifacts, hash);
    ExtendedSeals(existing, artifacts, hash);
    ExtendedSeals(once, artifacts, hash);
    if Extends(once, SealOf(artifacts, hash)) {
      ExtendsTransitive(existing, once, SealOf(artifacts, hash));
    }
  }

  lemma ExtendsTransitive(a: Files, b: Files, c: Files)
    requires Extends(a, b) && Extends(b, c)
    ensures Extends(a, c)
  {
    forall p | p in a ensures p in c && c[p] == a[p] { assert b[p] == a[p]; }
  }

  // ----- whole histories -----

  /** One attempt to change the archive: the author may have edited the manifest and the tree in any
      way. `faulty` stands for the rules about the tree alone (headers, triplets, directories). */
  datatype Attempt = Attempt(manifest: Files, tree: Tree, write: bool, faulty: bool)

  /** The command accepts: no fault against the committed manifest, none of the tree against the
      working manifest, and, unless it is to write them, no unsealed artifact. */
  ghost predicate Accepted(committed: Files, a: Attempt, hash: Content -> string) {
    && !a.faulty
    && Extends(committed, a.manifest)
    && Extends(a.manifest, SealOf(a.tree, hash))
    && (a.write || a.tree.Keys - a.manifest.Keys == {})
  }

  /** The manifest committed after an attempt: rejected attempts are not committed. */
  ghost function Commit(committed: Files, a: Attempt, hash: Content -> string): Files {
    if !Accepted(committed, a, hash) then committed
    else if a.write then Extended(a.manifest, a.tree, hash)
    else a.manifest
  }

  ghost function Committed(start: Files, attempts: seq<Attempt>, hash: Content -> string): Files
    decreases |attempts|
  {
    if attempts == [] then start
    else Commit(Committed(start, attempts[..|attempts| - 1], hash), attempts[|attempts| - 1], hash)
  }

  ghost predicate AcceptedAt(start: Files, attempts: seq<Attempt>, i: nat, hash: Content -> string)
    requires i < |attempts|
  {
    Accepted(Committed(start, attempts[..i], hash), attempts[i], hash)
  }

  /** What a fault says is so. */
  ghost predicate FaultOf(committed: Files, a: Attempt, hash: Content -> string, e: Fault) {
    match e
    case EntryMissing(p) => p in committed && p !in a.manifest
    case EntryChanged(p) => p in committed && p in a.manifest && a.manifest[p] != committed[p]
    case ArtifactMissing(p) => p in a.manifest && p !in a.tree
    case ContentChanged(p) => p in a.manifest && p in a.tree && hash(a.tree[p]) != a.manifest[p]
    case Unsealed(p) => !a.write && p in a.tree && p !in a.manifest
  }

  /** The command itself: it passes exactly the acceptable attempts, and the manifest it leaves behind
      is the one to commit. The parameters `*Order` are iteration orders. */
  method Check(committed: Files, committedOrder: seq<string>, a: Attempt, manifestOrder: seq<string>,
               treeOrder: seq<string>, collate: Comparator<string>, hash: Content -> string)
    returns (errors: seq<Fault>, manifest: Files)
    requires Enumerates(committedOrder, committed.Keys) && Enumerates(manifestOrder, a.manifest.Keys)
    requires Enumerates(treeOrder, a.tree.Keys) && Total(collate)
    ensures Accepted(committed, a, hash) <==> errors == [] && !a.faulty
    ensures manifest == if Accepted(committed, a, hash) then Commit(committed, a, hash) else a.manifest
    ensures forall e :: e in errors <==> FaultOf(committed, a, hash, e)
  {
    hide Distinct, Sorted, Total, Extends, Accepted, Commit, FaultOf, Enumerates, SealOf, Extended;
    errors := ValidateExtension(committedOrder, committed, a.manifest);
    ghost var manifestErrors := errors;
    var files, added, treeErrors := Extend(manifestOrder, a.manifest, treeOrder, a.tree, collate, hash);
    errors := errors + treeErrors;
    if !a.write {
      for i := 0 to |added|
        invariant errors == manifestErrors + treeErrors + AllUnsealed(added[..i])
      {
        assert added[..i + 1] == added[..i] + [added[i]];
        assert AllUnsealed(added[..i + 1]) == AllUnsealed(added[..i]) + [Unsealed(added[i])];
        errors := errors + [Unsealed(added[i])];
      }
      assert added[..|added|] == added;
    }
    CheckOutcome(committed, a, hash, manifestErrors, treeErrors, added, errors);
    manifest := if errors == [] && !a.faulty && a.write then files else a.manifest;
    CheckManifest(committed, a, hash);
  }

  function AllUnsealed(paths: seq<string>): (r: seq<Fault>)
    ensures |r| == |paths| && forall i :: 0 <= i < |r| ==> r[i] == Unsealed(paths[i])
  {
    seq(|paths|, i requires 0 <= i < |paths| => Unsealed(paths[i]))
  }

  lemma CheckManifest(committed: Files, a: Attempt, hash: Content -> string)
    ensures Accepted(committed, a, hash) ==>
              Commit(committed, a, hash) == if a.write then Extended(a.manifest, a.tree, hash) else a.manifest
  {
    hide Extends, Extended;
  }

  lemma CheckOutcome(committed: Files, a: Attempt, hash: Content -> string, manifestErrors: seq<Fault>,
                     treeErrors: seq<Fault>, added: seq<string>, errors: seq<Fault>)
    requires errors == if a.write then manifestErrors + treeErrors
                       else manifestErrors + treeErrors + AllUnsealed(added)
    requires Elements(added) == a.tree.Keys - a.manifest.Keys
    requires manifestErrors == [] <==> Extends(committed, a.manifest)
    requires forall p :: EntryMissing(p) in manifestErrors <==> p in committed && p !in a.manifest
    requires forall p :: EntryChanged(p) in manifestErrors <==>
               p in committed && p in a.manifest && a.manifest[p] != committed[p]
    requires forall e :: e in manifestErrors ==> e.EntryMissing? || e.EntryChanged?
    requires treeErrors == [] <==> Extends(a.manifest, SealOf(a.tree, hash))
    requires forall p :: ArtifactMissing(p) in treeErrors <==> p in a.manifest && p !in a.tree
    requires forall p :: ContentChanged(p) in treeErrors <==>
               p in a.manifest && p in a.tree && hash(a.tree[p]) != a.manifest[p]
    requires forall e :: e in treeErrors ==> e.ArtifactMissing? || e.ContentChanged?
    ensures Accepted(committed, a, hash) <==> errors == [] && !a.faulty
    ensures forall e :: e in errors <==> FaultOf(committed, a, hash, e)
  {
    hide Extends, SealOf;
    var unsealed := AllUnsealed(added);
    assert added == [] <==> a.tree.Keys - a.manifest.Keys == {} by {
      if added != [] { assert added[0] in Elements(added); }
    }
    forall e ensures e in unsealed <==> e.Unsealed? && e.path in a.tree && e.path !in a.manifest {
      if e.Unsealed? && e.path in Elements(added) {
        var i :| 0 <= i < |added| && added[i] == e.path;
        assert unsealed[i] == e;
      }
      if e in unsealed { assert e.path in Elements(added); }
    }
    forall e ensures e in errors <==> FaultOf(committed, a, hash, e) {
      assert e in errors <==> e in manifestErrors || e in treeErrors || (!a.write && e in unsealed);
    }
  }

  /** With or without writing, an accepted attempt commits exactly the seal of its tree. */
  lemma AcceptedSealsTree(committed: Files, a: Attempt, hash: Content -> string)
    requires Accepted(committed, a, hash)
    ensures Commit(committed, a, hash) == SealOf(a.tree, hash)
    ensures Extends(committed, SealOf(a.tree, hash))
  {
    ExtendedSeals(a.manifest, a.tree, hash);
    ExtendsTransitive(committed, a.manifest, SealOf(a.tree, hash));
    if !a.write {
      forall p | p in a.tree ensures p in a.manifest { assert p !in a.tree.Keys - a.manifest.Keys; }
      assert a.manifest == SealOf(a.tree, hash);
    }
  }

  /** Whatever the authors try, no sealed path is ever lost and no hash ever changes: any earlier
      committed manifest is extended by any later one. */
  lemma {:induction false} SealsNeverChange(start: Files, attempts: seq<Attempt>, i: nat, j: nat,
                                            hash: Content -> string)
    requires i <= j <= |attempts|
    ensures Extends(Committed(start, attempts[..i], hash), Committed(start, attempts[..j], hash))
    decreases j
  {
    if i < j {
      SealsNeverChange(start, attempts, i, j - 1, hash);
      var before, a := Committed(start, attempts[..j - 1], hash), attempts[j - 1];
      assert attempts[..j][..j - 1] == attempts[..j - 1];
      assert Committed(start, attempts[..j], hash) == Commit(before, a, hash);
      if Accepted(before, a, hash) { AcceptedSealsTree(before, a, hash); }
      ExtendsTransitive(Committed(start, attempts[..i], hash), before, Commit(before, a, hash));
    }
  }

  /** The tree of every accepted attempt still hashes to everything ever sealed before it, and to
      nothing else than what is sealed after it. */
  lemma AcceptedTreesMatch(start: Files, attempts: seq<Attempt>, i: nat, j: nat, hash: Content -> string)
    requires i <= j < |attempts| && AcceptedAt(start, attempts, j, hash)
    ensures Extends(Committed(start, attempts[..i], hash), SealOf(attempts[j].tree, hash))
    ensures Committed(start, attempts[..j + 1], hash) == SealOf(attempts[j].tree, hash)
  {
    SealsNeverChange(start, attempts, i, j, hash);
    var before := Committed(start, attempts[..j], hash);
    AcceptedSealsTree(before, attempts[j], hash);
    ExtendsTransitive(Committed(start, attempts[..i], hash), before, SealOf(attempts[j].tree, hash));
    assert attempts[..j + 1][..j] == attempts[..j];
  }

  /** An archived file never changes: its content in one accepted tree is its content in every later
      one, wherever the hash tells the two contents apart. */
  lemma ArchivedContentIsFrozen(start: Files, attempts: seq<Attempt>, i: nat, j: nat, path: string,
                                hash: Content -> string)
    requires i <= j < |attempts| && AcceptedAt(start, attempts, i, hash) && AcceptedAt(start, attempts, j, hash)
    requires path in attempts[i].tree
    ensures path in attempts[j].tree && hash(attempts[j].tree[path]) == hash(attempts[i].tree[path])
    ensures (forall c, d :: hash(c) == hash(d) ==> c == d) ==> attempts[j].tree[path] == attempts[i].tree[path]
  {
    if i < j {
      AcceptedTreesMatch(start, attempts, i, i, hash);
      AcceptedTreesMatch(start, attempts, i + 1, j, hash);
      assert SealOf(attempts[i].tree, hash)[path] == hash(attempts[i].tree[path]);
      assert path in Committed(start, attempts[..i + 1], hash);
    }
  }

  /** An edit is rejected exactly when it breaks a rule about the tree, drops or alters a committed
      seal, disagrees with a working seal, or leaves a file unsealed without asking to seal it. */
  lemma AttemptOutcome(committed: Files, a: Attempt, hash: Content -> string)
    ensures Accepted(committed, a, hash) <==>
            && !a.faulty && Extends(committed, a.manifest)
            && SealOf(a.tree, hash) == if a.write then Extended(a.manifest, a.tree, hash) else a.manifest
  {
    ExtendedSeals(a.manifest, a.tree, hash);
    if Accepted(committed, a, hash) {
      AcceptedSealsTree(committed, a, hash);
    } else if !a.write && SealOf(a.tree, hash) == a.manifest {
      assert a.tree.Keys == a.manifest.Keys;
    }
  }

  // ----- renderArchiveManifest and parseArchiveManifest -----

  /** A parsed JSON value; object entries in textual order. */
  datatype Json = Number(n: int) | Text(s: string) | Object(entries: seq<(string, Json)>) | Other

  /** JSON.parse keeps the last of several entries with one key. */
  function Fields(entries: seq<(string, Json)>): map<string, Json> {
    if entries == [] then map[]
    else Fields(entries[..|entries| - 1])[entries[|entries| - 1].0 := entries[|entries| - 1].1]
  }

  predicate SealedHash(h: string) {
    |h| == 71 && h[..7] == "sha256:" && forall i :: 7 <= i < 71 ==> '0' <= h[i] <= '9' || 'a' <= h[i] <= 'f'
  }

  /** The manifest an admissible value denotes; None for every value outside the closed schema. */
  function Parse(value: Json): Option<Files> {
    if !value.Object? then None
    else
      var fields := Fields(value.entries);
      if fields.Keys != {"files", "version"} || fields["version"] != Number(1) || !fields["files"].Object? then None
      else ParseFiles(Fields(fields["files"].entries))
  }

  function ParseFiles(files: map<string, Json>): Option<Files> {
    if forall p :: p in files ==> files[p].Text? && SealedHash(files[p].s)
    then Some(map p | p in files && files[p].Text? :: files[p].s) else None
  }

  /** `order` is the iteration order of the manifest's files. */
  function Render(order: seq<string>, files: Files, collate: Comparator<string>): Json
    requires forall p :: p in order ==> p in files
  {
    var sorted := Sort(order, collate);
    SameElements(order, sorted);
    Object([("version", Number(1)),
            ("files", Object(seq(|sorted|, i requires 0 <= i < |sorted| && sorted[i] in files =>
              (sorted[i], Text(files[sorted[i]])))))])
  }

  ghost predicate HasKey(entries: seq<(string, Json)>, k: string) {
    exists i :: 0 <= i < |entries| && entries[i].0 == k
  }

  /** The last entry of the key has this value. */
  ghost predicate Last(entries: seq<(string, Json)>, k: string, v: Json) {
    exists i :: 0 <= i < |entries| && entries[i] == (k, v) && forall j :: i < j < |entries| ==> entries[j].0 != k
  }

  lemma {:induction false} FieldsLast(entries: seq<(string, Json)>)
    ensures forall k :: k in Fields(entries) <==> HasKey(entries, k)
    ensures forall k, v :: Last(entries, k, v) <==> k in Fields(entries) && Fields(entries)[k] == v
  {
    if entries != [] {
      var n := |entries| - 1;
      FieldsLast(entries[..n]);
      assert entries == entries[..n] + [entries[n]];
      hide Fields;
      FieldsAdd(entries[..n], entries[n].0, entries[n].1);
      forall k, v ensures Last(entries, k, v) <==> k in Fields(entries) && Fields(entries)[k] == v {
        LastAdd(entries[..n], entries[n].0, entries[n].1, k, v);
      }
    }
  }

  lemma FieldsAdd(init: seq<(string, Json)>, k: string, v: Json)
    ensures Fields(init + [(k, v)]) == Fields(init)[k := v]
    ensures forall l :: HasKey(init + [(k, v)], l) <==> HasKey(init, l) || l == k
  {
    var all := init + [(k, v)];
    assert all[..|init|] == init && all[|init|] == (k, v);
    forall l | HasKey(init, l) ensures HasKey(all, l) {
      var i :| 0 <= i < |init| && init[i].0 == l;
      assert all[i].0 == l;
    }
  }

  lemma LastAdd(init: seq<(string, Json)>, k: string, v: Json, l: string, u: Json)
    ensures Last(init + [(k, v)], l, u) <==> if l == k then u == v else Last(init, l, u)
  {
    var all := init + [(k, v)];
    assert all[|init|] == (k, v);
    if l != k && Last(init, l, u) {
      var i :| 0 <= i < |init| && init[i] == (l, u) && forall j :: i < j < |init| ==> init[j].0 != l;
      assert all[i] == (l, u);
    }
    if Last(all, l, u) {
      var i :| 0 <= i < |all| && all[i] == (l, u) && forall j :: i < j < |all| ==> all[j].0 != l;
      if l != k {
        assert init[i] == (l, u);
        forall j | i < j < |init| ensures init[j].0 != l { assert all[j] == init[j]; }
      }
    }
  }

  /** "sha256:" and 64 lower-case hexadecimal digits. */
  ghost predicate HexSeal(h: string) {
    exists digits: string :: h == "sha256:" + digits && |digits| == 64 && HexDigits(digits)
  }

  ghost predicate HexDigits(digits: string) {
    forall i :: 0 <= i < |digits| ==> '0' <= digits[i] <= '9' || 'a' <= digits[i] <= 'f'
  }

  lemma SealedHashMeaning(h: string)
    ensures SealedHash(h) <==> HexSeal(h)
  {
    if SealedHash(h) {
      var digits := h[7..];
      assert h == "sha256:" + digits;
      assert forall i :: 0 <= i < |digits| ==> digits[i] == h[i + 7];
    }
    if digits: string :| h == "sha256:" + digits && |digits| == 64 && HexDigits(digits) {
      forall i | 7 <= i < 71 ensures '0' <= h[i] <= '9' || 'a' <= h[i] <= 'f' { assert h[i] == digits[i - 7]; }
    }
  }

  /** The value is an object with exactly the fields `version`, which is 1, and `files`, an object whose
      entries, the last one for each path, are the seals of the manifest. */
  ghost predicate Denotes(value: Json, files: Files) {
    && value.Object?
    && (forall k :: HasKey(value.entries, k) <==> k == "version" || k == "files")
    && Last(value.entries, "version", Number(1))
    && exists es :: Last(value.entries, "files", Object(es)) && Seals(es, files)
  }

  ghost predicate Seals(es: seq<(string, Json)>, files: Files) {
    && (forall p :: HasKey(es, p) <==> p in files)
    && (forall p :: p in files ==> Last(es, p, Text(files[p])) && HexSeal(files[p]))
  }

  lemma ParseFilesExact(es: seq<(string, Json)>, files: Files)
    ensures ParseFiles(Fields(es)) == Some(files) <==> Seals(es, files)
  {
    hide Fields, Last, HasKey, HexSeal, SealedHash;
    FieldsLast(es);
    SameSeals(Fields(es), files);
    forall p | p in files
      ensures Last(es, p, Text(files[p])) <==> p in Fields(es) && Fields(es)[p] == Text(files[p])
    {}
    forall h ensures SealedHash(h) <==> HexSeal(h) { SealedHashMeaning(h); }
    hide ParseFiles;
  }

  lemma SameSeals(fields: map<string, Json>, files: Files)
    ensures ParseFiles(fields) == Some(files) <==>
            && (forall p :: p in fields <==> p in files)
            && (forall p :: p in files ==> p in fields && fields[p] == Text(files[p]) && SealedHash(files[p]))
  {
    hide SealedHash;
    if ParseFiles(fields) == Some(files) {
      assert forall p :: p in fields ==> fields[p].Text? && SealedHash(fields[p].s) && files[p] == fields[p].s;
    }
    if (forall p :: p in fields <==> p in files) &&
       forall p :: p in files ==> p in fields && fields[p] == Text(files[p]) && SealedHash(files[p])
    {
      assert forall p :: p in fields ==> fields[p].Text? && SealedHash(fields[p].s);
      assert ParseFiles(fields).value == files;
    }
  }

  /** A text is read as a manifest exactly if it denotes that manifest. */
  lemma ParseExact(value: Json, files: Files)
    ensures Parse(value) == Some(files) <==> Denotes(value, files)
  {
    if value.Object? {
      FieldsLast(value.entries);
      hide Fields, Last, HasKey, Seals, ParseFiles;
      var fields := Fields(value.entries);
      assert fields.Keys == {"files", "version"} <==> forall k :: k in fields <==> k == "version" || k == "files";
      if "files" in fields && fields["files"].Object? { ParseFilesExact(fields["files"].entries, files); }
      if Denotes(value, files) {
        var es :| Last(value.entries, "files", Object(es)) && Seals(es, files);
        assert fields["files"] == Object(es);
      }
    }
  }

  /** What is written: the version, and the seals in ascending order of their paths. */
  lemma RenderExact(order: seq<string>, files: Files, collate: Comparator<string>)
    requires Enumerates(order, files.Keys) && Total(collate)
    ensures exists es: seq<(string, Json)> ::
              && Render(order, files, collate) == Object([("version", Number(1)), ("files", Object(es))])
              && |es| == |files|
              && (forall i :: 0 <= i < |es| ==> es[i].0 in files && es[i].1 == Text(files[es[i].0]))
              && (forall i, j :: 0 <= i < j < |es| ==> es[i].0 != es[j].0 && collate(es[i].0, es[j].0) <= 0)
  {
    var sorted := Sort(order, collate);
    SameElements(order, sorted);
    SortSorts(order, collate);
    DistinctByCount(order);
    DistinctByCount(sorted);
    DistinctSize(order);
    hide Sort, Distinct;
    assert Distinct(sorted);
    SortedEntries(sorted, files, collate);
  }

  lemma SortedEntries(sorted: seq<string>, files: Files, collate: Comparator<string>)
    requires Distinct(sorted) && Sorted(sorted, collate) && forall p :: p in sorted ==> p in files
    ensures var es := seq(|sorted|, i requires 0 <= i < |sorted| && sorted[i] in files =>
                        (sorted[i], Text(files[sorted[i]])));
            && (forall i :: 0 <= i < |es| ==> es[i].0 in files && es[i].1 == Text(files[es[i].0]))
            && (forall i, j :: 0 <= i < j < |es| ==> es[i].0 != es[j].0 && collate(es[i].0, es[j].0) <= 0)
  {
  }

  lemma {:induction false} DistinctSize<T>(s: seq<T>)
    requires Distinct(s)
    ensures |Elements(s)| == |s|
  {
    if s != [] {
      var n := |s| - 1;
      DistinctSize(s[..n]);
      NextElement(s, n);
    }
  }

  lemma {:induction false} FieldsOf(entries: seq<(string, Json)>, files: Files)
    requires forall i :: 0 <= i < |entries| ==> entries[i].0 in files && entries[i].1 == Text(files[entries[i].0])
    ensures forall p :: p in Fields(entries) <==> exists i :: 0 <= i < |entries| && entries[i].0 == p
    ensures forall p :: p in Fields(entries) ==> p in files && Fields(entries)[p] == Text(files[p])
    decreases |entries|
  {
    if entries != [] {
      var n := |entries| - 1;
      var init := entries[..n];
      FieldsOf(init, files);
      forall p ensures p in Fields(entries) <==> exists i :: 0 <= i < |entries| && entries[i].0 == p {
        if p in Fields(init) {
          var i :| 0 <= i < n && init[i].0 == p;
          assert entries[i].0 == p;
        }
        if exists i :: 0 <= i < |entries| && entries[i].0 == p {
          var i :| 0 <= i < |entries| && entries[i].0 == p;
          if i < n { assert init[i].0 == p; }
        }
      }
    }
  }

  lemma TwoFields(entries: seq<(string, Json)>)
    requires |entries| == 2
    ensures Fields(entries) == map[entries[0].0 := entries[0].1][entries[1].0 := entries[1].1]
  {
    assert entries[..1][..0] == [];
    assert Fields(entries[..1]) == map[entries[0].0 := entries[0].1];
  }

  /** What is written is read back, exactly when every hash has the sealed form. */
  lemma RenderRoundTrip(order: seq<string>, files: Files, collate: Comparator<string>)
    requires Enumerates(order, files.Keys)
    ensures Parse(Render(order, files, collate)) ==
            if forall p :: p in files ==> SealedHash(files[p]) then Some(files) else None
  {
    var top := Render(order, files, collate);
    TwoFields(top.entries);
    assert Fields(top.entries) == map["version" := Number(1), "files" := top.entries[1].1];
    RenderedFiles(order, files, collate);
    ParseTexts(Fields(top.entries[1].1.entries), files);
  }

  lemma RenderedFiles(order: seq<string>, files: Files, collate: Comparator<string>)
    requires Enumerates(order, files.Keys)
    ensures var fields := Fields(Render(order, files, collate).entries[1].1.entries);
            fields.Keys == files.Keys && forall p :: p in files ==> fields[p] == Text(files[p])
  {
    var sorted := Sort(order, collate);
    SameElements(order, sorted);
    var entries := Render(order, files, collate).entries[1].1.entries;
    FieldsOf(entries, files);
    forall p ensures p in Fields(entries) <==> p in files {
      if p in files {
        assert p in Elements(order);
        var i :| 0 <= i < |sorted| && sorted[i] == p;
        assert entries[i].0 == p;
      }
    }
  }

  lemma ParseTexts(fields: map<string, Json>, files: Files)
    requires fields.Keys == files.Keys && forall p :: p in files ==> fields[p] == Text(files[p])
    ensures ParseFiles(fields) == if forall p :: p in files ==> SealedHash(files[p]) then Some(files) else None
  {
    if forall p :: p in files ==> SealedHash(files[p]) {
      assert ParseFiles(fields).value == files;
    }
  }

  /** What is written depends on the manifest alone, not on the order in which its entries were made. */
  lemma RenderIgnoresOrder(order: seq<string>, other: seq<string>, files: Files, collate: Comparator<string>)
    requires Enumerates(order, files.Keys) && Enumerates(other, files.Keys)
    requires Total(collate) && Separates(collate, order)
    ensures Render(order, files, collate) == Render(other, files, collate)
  {
    forall p ensures p in order <==> p in other { assert p in Elements(order) <==> p in Elements(other); }
    DistinctPermutation(order, other);
    SortUnique(order, other, collate);
  }
}
