/** `client-build-environment`: the byte stream fed to the artifact digest. Each file contributes its
    path and its content, each framed by its length in decimal and a colon. */
module ArtifactDigest {
  import opened Basics
  import opened Sorting
  import opened Packages

  newtype byte = x: int | 0 <= x < 256
  type Bytes = seq<byte>

  /** An artifact: its path as UTF-8 and its content. */
  datatype Artifact = Artifact(path: Bytes, content: Bytes)

  const COLON: byte := 58
  const ZERO: byte := 48

  predicate IsDigit(b: byte) { 48 <= b <= 57 }

  function Decimal(n: nat): (s: Bytes)
    ensures s != [] && forall b :: b in s ==> IsDigit(b)
  {
    if n < 10 then [48 + n as byte] else Decimal(n / 10) + [48 + (n % 10) as byte]
  }

  function Framed(payload: Bytes): Bytes {
    Decimal(|payload|) + [COLON] + payload
  }

  function Frame(a: Artifact): Bytes {
    Framed(a.path) + Framed(a.content)
  }

  function Stream(artifacts: seq<Artifact>): Bytes {
    if artifacts == [] then [] else Frame(artifacts[0]) + Stream(artifacts[1..])
  }

  // ----- a reader of such streams -----

  /** The number of leading digits. */
  function DigitRun(s: Bytes): (n: nat)
    ensures n <= |s| && (forall i :: 0 <= i < n ==> IsDigit(s[i])) && (n < |s| ==> !IsDigit(s[n]))
  {
    if s == [] || !IsDigit(s[0]) then 0 else 1 + DigitRun(s[1..])
  }

  function Number(digits: Bytes): nat {
    if digits == [] || !IsDigit(digits[|digits| - 1]) then 0
    else 10 * Number(digits[..|digits| - 1]) + (digits[|digits| - 1] as int - 48)
  }

  /** One framed payload and what follows it. The length must be in plain decimal. */
  function ReadFramed(s: Bytes): (r: Option<(Bytes, Bytes)>)
    ensures r.Some? ==> |r.value.1| < |s|
  {
    var d := DigitRun(s);
    var n := Number(s[..d]);
    if d < |s| && s[d] == COLON && s[..d] == Decimal(n) && d + 1 + n <= |s|
    then Some((s[d + 1..d + 1 + n], s[d + 1 + n..])) else None
  }

  function Read(s: Bytes): Option<seq<Artifact>>
    decreases |s|
  {
    if s == [] then Some([])
    else
      var path := ReadFramed(s);
      if path.None? then None
      else
        var content := ReadFramed(path.value.1);
        if content.None? then None
        else
          var rest := Read(content.value.1);
          if rest.None? then None else Some([Artifact(path.value.0, content.value.0)] + rest.value)
  }

  lemma {:induction false} DecimalNumber(n: nat)
    ensures Number(Decimal(n)) == n
  {
    if n < 10 {
      assert Number([]) == 0;
      assert Decimal(n)[..0] == [];
    } else {
      DecimalNumber(n / 10);
      assert Decimal(n)[..|Decimal(n)| - 1] == Decimal(n / 10);
    }
  }

  lemma {:induction false} DigitRunEnds(digits: Bytes, rest: Bytes)
    requires (forall b :: b in digits ==> IsDigit(b)) && (rest != [] ==> !IsDigit(rest[0]))
    ensures DigitRun(digits + rest) == |digits|
  {
    if digits == [] {
      assert digits + rest == rest;
    } else {
      assert (digits + rest)[1..] == digits[1..] + rest;
      DigitRunEnds(digits[1..], rest);
    }
  }

  lemma FramedReads(payload: Bytes, rest: Bytes)
    ensures ReadFramed(Framed(payload) + rest) == Some((payload, rest))
  {
    var d := Decimal(|payload|);
    var s := Framed(payload) + rest;
    var after := [COLON] + payload + rest;
    assert s == d + after;
    DigitRunEnds(d, after);
    DecimalNumber(|payload|);
    assert s[..|d|] == d && s[|d|] == COLON;
    assert s[|d| + 1..|d| + 1 + |payload|] == payload && s[|d| + 1 + |payload|..] == rest;
  }

  lemma ReadsFramed(s: Bytes)
    requires ReadFramed(s).Some?
    ensures s == Framed(ReadFramed(s).value.0) + ReadFramed(s).value.1
  {
  }

  /** Whatever the files, the stream reads back as the list that was written. */
  lemma {:induction false} StreamReads(artifacts: seq<Artifact>)
    ensures Read(Stream(artifacts)) == Some(artifacts)
  {
    if artifacts != [] {
      hide Frame, ReadFramed, Framed;
      var a, rest := artifacts[0], artifacts[1..];
      StreamReads(rest);
      FrameReads(a, Stream(rest));
      assert artifacts == [a] + rest;
    }
  }

  lemma NothingFramed()
    ensures ReadFramed([]) == None
  {
  }

  lemma FrameReads(a: Artifact, rest: Bytes)
    ensures var s := Frame(a) + rest;
            var path := ReadFramed(s);
            s != [] && path.Some? && path.value.0 == a.path && ReadFramed(path.value.1) == Some((a.content, rest))
  {
    hide ReadFramed, Framed;
    FramedReads(a.path, Framed(a.content) + rest);
    FramedReads(a.content, rest);
    assert Frame(a) + rest == Framed(a.path) + (Framed(a.content) + rest);
    NothingFramed();
  }

  /** The reader accepts nothing but streams. */
  lemma {:induction false} ReadStreams(s: Bytes)
    requires Read(s).Some?
    ensures Stream(Read(s).value) == s
    decreases |s|
  {
    if s != [] {
      var path := ReadFramed(s);
      var content := ReadFramed(path.value.1);
      ReadStreams(content.value.1);
      ReadsFramed(s);
      ReadsFramed(path.value.1);
      var rest := Read(content.value.1).value;
      var a := Artifact(path.value.0, content.value.0);
      assert Read(s).value == [a] + rest;
      assert ([a] + rest)[1..] == rest;
      assert s == Framed(a.path) + (Framed(a.content) + content.value.1);
    }
  }

  /** Reading inverts writing, in both directions; so equal streams mean equal lists. */
  lemma StreamExact(s: Bytes, artifacts: seq<Artifact>)
    ensures Read(s) == Some(artifacts) <==> s == Stream(artifacts)
  {
    StreamReads(artifacts);
    if Read(s).Some? { ReadStreams(s); }
  }

  // ----- the order of the paths -----

  /** String order by code unit, as Array.prototype.sort compares without a comparator. */
  function Compare(a: string, b: string): int {
    if a == [] then (if b == [] then 0 else -1)
    else if b == [] then 1
    else if a[0] != b[0] then (if a[0] < b[0] then -1 else 1)
    else Compare(a[1..], b[1..])
  }

  lemma {:induction false} CompareSigns(a: string, b: string)
    ensures Compare(a, b) == -Compare(b, a) && (Compare(a, b) == 0 <==> a == b)
  {
    if a != [] && b != [] && a[0] == b[0] {
      CompareSigns(a[1..], b[1..]);
      assert a == [a[0]] + a[1..] && b == [b[0]] + b[1..];
    }
  }

  lemma {:induction false} CompareChains(a: string, b: string, c: string)
    requires Compare(a, b) <= 0 && Compare(b, c) <= 0
    ensures Compare(a, c) <= 0
  {
    if a != [] && b != [] && c != [] && a[0] == b[0] && b[0] == c[0] {
      CompareChains(a[1..], b[1..], c[1..]);
    }
  }

  lemma CompareTotal(paths: seq<string>)
    ensures Total(Compare) && Separates(Compare, paths)
  {
    forall a, b ensures Signs(Compare, a, b) && (Compare(a, b) == 0 <==> a == b) { CompareSigns(a, b); }
    forall a, b, c ensures Chains(Compare, a, b, c) {
      if Compare(a, b) <= 0 && Compare(b, c) <= 0 { CompareChains(a, b, c); }
    }
  }

  /** a is a proper beginning of b, or smaller than b in the first code unit in which they differ. */
  ghost predicate Precedes(a: string, b: string) {
    exists k: nat :: k <= |a| && k <= |b| && a[..k] == b[..k] && SmallerAt(a, b, k)
  }

  ghost predicate SmallerAt(a: string, b: string, k: nat) {
    k < |b| && (k == |a| || (k < |a| && a[k] < b[k]))
  }

  lemma PrecedesLater(a: string, b: string, k: nat)
    requires a != [] && b != [] && a[0] == b[0] && k < |a| && k < |b|
    ensures a[1..][..k] == b[1..][..k] <==> a[..k + 1] == b[..k + 1]
    ensures SmallerAt(a[1..], b[1..], k) <==> SmallerAt(a, b, k + 1)
  {
    assert a[..k + 1] == [a[0]] + a[1..][..k] && b[..k + 1] == [b[0]] + b[1..][..k];
  }

  lemma PrecedesTail(a: string, b: string)
    requires a != [] && b != [] && a[0] == b[0]
    ensures Precedes(a, b) <==> Precedes(a[1..], b[1..])
  {
    hide SmallerAt;
    if k: nat :| k <= |a| && k <= |b| && a[..k] == b[..k] && SmallerAt(a, b, k) {
      assert k > 0 by { SmallerAtHead(a, b); }
      PrecedesLater(a, b, k - 1);
    }
    if k: nat :| k < |a| && k < |b| && a[1..][..k] == b[1..][..k] && SmallerAt(a[1..], b[1..], k) {
      PrecedesLater(a, b, k);
    }
  }

  lemma SmallerAtHead(a: string, b: string)
    ensures SmallerAt(a, b, 0) <==> b != [] && (a == [] || a[0] < b[0])
  {
  }

  lemma BeginsSame(a: string, b: string, k: nat)
    requires k <= |a| && k <= |b| && a[..k] == b[..k]
    ensures k > 0 ==> a[0] == b[0]
  {
    if k > 0 { assert a[..k][0] == a[0] && b[..k][0] == b[0]; }
  }

  lemma PrecedesHead(a: string, b: string)
    requires a == [] || b == [] || a[0] != b[0]
    ensures Precedes(a, b) <==> SmallerAt(a, b, 0)
  {
    if SmallerAt(a, b, 0) { assert a[..0] == b[..0]; }
    if k: nat :| k <= |a| && k <= |b| && a[..k] == b[..k] && SmallerAt(a, b, k) {
      BeginsSame(a, b, k);
    }
  }

  lemma {:induction false} CompareMeaning(a: string, b: string)
    ensures Compare(a, b) < 0 <==> Precedes(a, b)
  {
    hide Precedes;
    if a == [] || b == [] || a[0] != b[0] {
      PrecedesHead(a, b);
    } else {
      CompareMeaning(a[1..], b[1..]);
      PrecedesTail(a, b);
    }
  }

  // ----- clientArtifactDigest -----

  /** `path.replaceAll('\\', '/')`. */
  function Slashes(path: string): (r: string)
    ensures |r| == |path| && forall i :: 0 <= i < |r| ==> r[i] == if path[i] == '\\' then '/' else path[i]
  {
    seq(|path|, i requires 0 <= i < |path| => if path[i] == '\\' then '/' else path[i])
  }

  /** The globbed paths that name regular files. */
  function Listed(globbed: seq<string>, files: map<string, Bytes>): (r: seq<string>)
    ensures forall p :: p in r ==> p in files
  {
    if globbed == [] then []
    else
      var last := Slashes(globbed[|globbed| - 1]);
      Listed(globbed[..|globbed| - 1], files) + if last in files then [last] else []
  }

  function Artifacts(paths: seq<string>, files: map<string, Bytes>, utf8: string -> Bytes): (r: seq<Artifact>)
    requires forall p :: p in paths ==> p in files
    ensures |r| == |paths| && forall i :: 0 <= i < |r| ==> r[i] == Artifact(utf8(paths[i]), files[paths[i]])
  {
    seq(|paths|, i requires 0 <= i < |paths| && paths[i] in files => Artifact(utf8(paths[i]), files[paths[i]]))
  }

  /** What the digest is a digest of. */
  function Digested(globbed: seq<string>, files: map<string, Bytes>, utf8: string -> Bytes): seq<Artifact> {
    var sorted := Sort(Listed(globbed, files), Compare);
    SameElements(Listed(globbed, files), sorted);
    Artifacts(sorted, files, utf8)
  }

  /** The hash receives its input piece by piece; None is the error for a build without artifacts. */
  method ClientArtifactDigest(globbed: seq<string>, files: map<string, Bytes>, utf8: string -> Bytes,
                              sha256: Bytes -> string)
    returns (digest: Option<(nat, string)>)
    ensures digest == if Listed(globbed, files) == [] then None
                      else Some((|Listed(globbed, files)|, sha256(Stream(Digested(globbed, files, utf8)))))
    ensures exists paths :: IsListing(globbed, files, paths) && digest == if paths == [] then None
                            else Some((|paths|, sha256(Stream(Artifacts(paths, files, utf8)))))
  {
    hide IsListing, Sort, Stream, Artifacts, Compare, Slashes, Listed;
    assert Listed(globbed[..0], files) == [] by { NoneListed(globbed, files); }
    var paths := [];
    for i := 0 to |globbed|
      invariant paths == Listed(globbed[..i], files)
    {
      OneListed(globbed, files, i);
      if Slashes(globbed[i]) in files { paths := paths + [Slashes(globbed[i])]; }
    }
    assert globbed[..|globbed|] == globbed;
    ghost var listed := paths;
    paths := Sort(paths, Compare);
    SameElements(listed, paths);
    SortedIsListing(globbed, files);
    if paths == [] { return None; }
    var fed := Feed(paths, files, utf8);
    digest := Some((|paths|, sha256(fed)));
  }

  lemma NoneListed(globbed: seq<string>, files: map<string, Bytes>)
    ensures Listed(globbed[..0], files) == []
  {
  }

  lemma OneListed(globbed: seq<string>, files: map<string, Bytes>, i: nat)
    requires i < |globbed|
    ensures Listed(globbed[..i + 1], files) ==
            Listed(globbed[..i], files) + if Slashes(globbed[i]) in files then [Slashes(globbed[i])] else []
  {
    assert globbed[..i + 1][..i] == globbed[..i];
  }

  method Feed(paths: seq<string>, files: map<string, Bytes>, utf8: string -> Bytes) returns (fed: Bytes)
    requires forall p :: p in paths ==> p in files
    ensures fed == Stream(Artifacts(paths, files, utf8))
  {
    hide Decimal, Stream, Artifacts;
    ghost var all := Artifacts(paths, files, utf8);
    fed := [];
    assert Stream(all[..0]) == [] by { NoStream(all); }
    for i := 0 to |paths|
      invariant fed == Stream(all[..i])
    {
      var path, content := utf8(paths[i]), files[paths[i]];
      StreamGrows(all, i);
      ghost var before := fed;
      fed := fed + Decimal(|path|) + [COLON];
      fed := fed + path;
      fed := fed + Decimal(|content|) + [COLON];
      fed := fed + content;
      assert fed == before + ((Decimal(|path|) + [COLON] + path) + (Decimal(|content|) + [COLON] + content));
    }
    assert all[..|paths|] == all;
  }

  lemma NoStream(all: seq<Artifact>)
    ensures Stream(all[..0]) == []
  {
  }

  lemma {:induction false} StreamConcat(s: seq<Artifact>, t: seq<Artifact>)
    ensures Stream(s + t) == Stream(s) + Stream(t)
  {
    hide Frame;
    if s == [] {
      assert s + t == t;
    } else {
      StreamConcat(s[1..], t);
      assert (s + t)[1..] == s[1..] + t && (s + t)[0] == s[0];
      assert Frame(s[0]) + (Stream(s[1..]) + Stream(t)) == Frame(s[0]) + Stream(s[1..]) + Stream(t);
    }
  }

  lemma StreamGrows(all: seq<Artifact>, i: nat)
    requires i < |all|
    ensures Stream(all[..i + 1]) == Stream(all[..i]) + Frame(all[i])
  {
    assert all[..i + 1] == all[..i] + [all[i]];
    StreamConcat(all[..i], [all[i]]);
    assert Stream([all[i]]) == Frame(all[i]) + Stream([]);
  }

  /** The order in which globbing lists the paths does not matter. */
  lemma GlobOrderIrrelevant(globbed: seq<string>, other: seq<string>, files: map<string, Bytes>, utf8: string -> Bytes)
    requires multiset(globbed) == multiset(other)
    ensures Digested(globbed, files, utf8) == Digested(other, files, utf8)
  {
    ListedPermutes(globbed, other, files);
    CompareTotal(Listed(globbed, files));
    SortUnique(Listed(globbed, files), Listed(other, files), Compare);
  }

  lemma {:induction false} ListedCount(globbed: seq<string>, files: map<string, Bytes>, p: string)
    requires p in files
    ensures multiset(Listed(globbed, files))[p] == multiset(Renamed(globbed))[p]
  {
    if globbed != [] {
      var n := |globbed| - 1;
      ListedCount(globbed[..n], files, p);
      assert Renamed(globbed) == Renamed(globbed[..n]) + [Slashes(globbed[n])];
    }
  }

  function Renamed(globbed: seq<string>): seq<string> {
    seq(|globbed|, i requires 0 <= i < |globbed| => Slashes(globbed[i]))
  }

  lemma {:induction false} RenamedPermutes(s: seq<string>, t: seq<string>)
    requires multiset(s) == multiset(t)
    ensures multiset(Renamed(s)) == multiset(Renamed(t))
    decreases |s|
  {
    SameElements(s, t);
    if s != [] {
      var n := |s| - 1;
      var i := TakeLast(s, t);
      RenamedPermutes(s[..n], t[..i] + t[i + 1..]);
      RenamedTakes(s, n);
      RenamedTakes(t, i);
      assert s[..n] + s[n + 1..] == s[..n];
    }
  }

  lemma RenamedTakes(t: seq<string>, i: nat)
    requires i < |t|
    ensures multiset(Renamed(t)) == multiset(Renamed(t[..i] + t[i + 1..])) + multiset{Slashes(t[i])}
  {
    hide Slashes;
    var a, b := Renamed(t[..i]), Renamed(t[i + 1..]);
    assert Renamed(t) == a + [Slashes(t[i])] + b;
    assert Renamed(t[..i] + t[i + 1..]) == a + b;
  }

  lemma ListedPermutes(s: seq<string>, t: seq<string>, files: map<string, Bytes>)
    requires multiset(s) == multiset(t)
    ensures multiset(Listed(s, files)) == multiset(Listed(t, files))
  {
    RenamedPermutes(s, t);
    forall p ensures multiset(Listed(s, files))[p] == multiset(Listed(t, files))[p] {
      if p in files {
        ListedCount(s, files, p);
        ListedCount(t, files, p);
      } else {
        assert p !in Listed(s, files) && p !in Listed(t, files);
      }
    }
  }

  // ----- which files are digested, and in which order -----

  /** p is the globbed path with slashes for its backslashes. */
  ghost predicate Spells(globbed: string, p: string) {
    |p| == |globbed| && forall i :: 0 <= i < |p| ==> p[i] == if globbed[i] == '\\' then '/' else globbed[i]
  }

  ghost function Spellings(globbed: seq<string>, n: nat, p: string): set<int>
    requires n <= |globbed|
  {
    set i | 0 <= i < n && Spells(globbed[i], p)
  }

  /** Every regular file that was globbed, as often as it was, in ascending order of code units. */
  ghost predicate IsListing(globbed: seq<string>, files: map<string, Bytes>, paths: seq<string>) {
    && (forall p :: p in paths ==> p in files)
    && (forall p :: p in files ==> multiset(paths)[p] == |Spellings(globbed, |globbed|, p)|)
    && (forall i, j :: 0 <= i < j < |paths| ==> !Precedes(paths[j], paths[i]))
  }

  lemma SlashesSpells(globbed: string, p: string)
    ensures Slashes(globbed) == p <==> Spells(globbed, p)
  {
  }

  lemma {:induction false} ListedSpelled(globbed: seq<string>, files: map<string, Bytes>, n: nat, p: string)
    requires p in files && n <= |globbed|
    ensures multiset(Listed(globbed[..n], files))[p] == |Spellings(globbed, n, p)|
  {
    assert n == 0 ==> Spellings(globbed, n, p) == {};
    hide Slashes, Listed, Spellings;
    if n == 0 {
      NoneListed(globbed, files);
    } else {
      ListedSpelled(globbed, files, n - 1, p);
      OneListed(globbed, files, n - 1);
      SpelledNext(globbed, n - 1, p);
    }
  }

  lemma SpelledNext(globbed: seq<string>, n: nat, p: string)
    requires n < |globbed|
    ensures |Spellings(globbed, n + 1, p)| == |Spellings(globbed, n, p)| + if Slashes(globbed[n]) == p then 1 else 0
  {
    SlashesSpells(globbed[n], p);
    hide Spells, Slashes;
    assert Spellings(globbed, n + 1, p) == Spellings(globbed, n, p) + if Spells(globbed[n], p) then {n} else {};
  }

  lemma SortedIsListing(globbed: seq<string>, files: map<string, Bytes>)
    ensures IsListing(globbed, files, Sort(Listed(globbed, files), Compare))
  {
    hide Listed, Sort, Spellings, Precedes, Total, Separates;
    var listed := Listed(globbed, files);
    var paths := Sort(listed, Compare);
    CompareTotal(listed);
    SortSorts(listed, Compare);
    SameElements(listed, paths);
    assert globbed[..|globbed|] == globbed;
    forall p | p in files ensures multiset(paths)[p] == |Spellings(globbed, |globbed|, p)| {
      ListedSpelled(globbed, files, |globbed|, p);
    }
    forall i, j | 0 <= i < j < |paths| ensures !Precedes(paths[j], paths[i]) {
      CompareMeaning(paths[j], paths[i]);
      CompareSigns(paths[i], paths[j]);
    }
  }

  // ----- what equal digests mean -----

  /** The artifacts of a build: the listed paths with their contents. */
  function Build(globbed: seq<string>, files: map<string, Bytes>): map<string, Bytes> {
    map p | p in Listed(globbed, files) :: files[p]
  }

  /** For two builds without repeated paths: as long as the hash does not give these two streams one
      digest, and the encoding does not give two paths of theirs one text, the digests are equal if and
      only if the builds have the same files with the same contents. */
  lemma DigestExact(g: seq<string>, f: map<string, Bytes>, h: seq<string>, e: map<string, Bytes>,
                    utf8: string -> Bytes, sha256: Bytes -> string)
    requires Distinct(Listed(g, f)) && Distinct(Listed(h, e))
    requires forall p, q :: p in Listed(g, f) && q in Listed(h, e) && utf8(p) == utf8(q) ==> p == q
    requires var s, t := Stream(Digested(g, f, utf8)), Stream(Digested(h, e, utf8)); sha256(s) == sha256(t) ==> s == t
    ensures sha256(Stream(Digested(g, f, utf8))) == sha256(Stream(Digested(h, e, utf8))) <==> Build(g, f) == Build(h, e)
  {
    hide Listed, Digested, Stream, Build;
    StreamReads(Digested(g, f, utf8));
    StreamReads(Digested(h, e, utf8));
    if Digested(g, f, utf8) == Digested(h, e, utf8) { SameArtifacts(g, f, h, e, utf8); }
    if Build(g, f) == Build(h, e) { SameBuild(g, f, h, e, utf8); }
  }

  lemma SameArtifacts(g: seq<string>, f: map<string, Bytes>, h: seq<string>, e: map<string, Bytes>,
                      utf8: string -> Bytes)
    requires Digested(g, f, utf8) == Digested(h, e, utf8)
    requires forall p, q :: p in Listed(g, f) && q in Listed(h, e) && utf8(p) == utf8(q) ==> p == q
    ensures Build(g, f) == Build(h, e)
  {
    hide Sort, Listed;
    var s, t := Sort(Listed(g, f), Compare), Sort(Listed(h, e), Compare);
    SameElements(Listed(g, f), s);
    SameElements(Listed(h, e), t);
    var a, b := Artifacts(s, f, utf8), Artifacts(t, e, utf8);
    assert |s| == |t|;
    forall i | 0 <= i < |s| ensures s[i] == t[i] && f[s[i]] == e[s[i]] {
      assert a[i] == b[i];
      assert s[i] in s && t[i] in t;
    }
    assert s == t;
    forall p | p in s ensures f[p] == e[p] { var i :| 0 <= i < |s| && s[i] == p; }
    assert forall p :: p in Listed(g, f) <==> p in Listed(h, e);
  }

  lemma SameBuild(g: seq<string>, f: map<string, Bytes>, h: seq<string>, e: map<string, Bytes>, utf8: string -> Bytes)
    requires Distinct(Listed(g, f)) && Distinct(Listed(h, e)) && Build(g, f) == Build(h, e)
    ensures Digested(g, f, utf8) == Digested(h, e, utf8)
  {
    hide Sort, Listed, Compare, Total, Separates;
    var s, t := Listed(g, f), Listed(h, e);
    forall p ensures p in s <==> p in t { assert p in Build(g, f) <==> p in Build(h, e); }
    DistinctPermutation(s, t);
    CompareTotal(s);
    SortUnique(s, t, Compare);
    var sorted := Sort(s, Compare);
    SameElements(s, sorted);
    forall p | p in sorted ensures f[p] == e[p] { assert Build(g, f)[p] == Build(h, e)[p]; }
    assert Artifacts(sorted, f, utf8) == Artifacts(sorted, e, utf8);
  }
}
