/** The paste queue of `collectConfigCatalog`: the declarations and imports a config type needs,
    collected under bare names, with a collision check on every resolution. */
module PasteClosure {

  datatype TypeRef = TypeRef(imported: string, specifier: string)

  /** What `resolveTypeName` makes of a name in a file. */
  datatype Resolution = Local(decl: string) | Imported(ref: TypeRef) | Unresolved

  /** A declaration's file and the type names that occur in it. */
  datatype Declaration = Declaration(file: string, names: seq<string>)

  datatype Sources = Sources(decls: map<string, Declaration>, resolution: map<(string, string), Resolution>,
                             globals: set<string>)

  datatype Item = Item(name: string, file: string)

  function Resolve(w: Sources, item: Item): (r: Resolution)
    ensures r.Local? ==> r.decl in w.decls
    ensures var k := (item.file, item.name);
            if k !in w.resolution then r.Unresolved?
            else r == w.resolution[k] || (r.Unresolved? && w.resolution[k].Local? && w.resolution[k].decl !in w.decls)
  {
    if (item.file, item.name) !in w.resolution then Unresolved
    else
      var r := w.resolution[(item.file, item.name)];
      if r.Local? && r.decl !in w.decls then Unresolved else r
  }

  datatype Violation =
    | NotFound(item: Item)
    | ConfigTypeImported(name: string)
    | LocalThenImport(name: string)
    | TwoImports(name: string)
    | TwoDeclarations(name: string)
    | ImportThenLocal(name: string)

  // ----- what a config type needs -----

  /** Resolving `from` brings in a declaration that mentions `to`. */
  ghost predicate Uses(w: Sources, from: Item, to: Item) {
    var r := Resolve(w, from);
    r.Local? && to.name in w.decls[r.decl].names && to.name !in w.globals && to.file == w.decls[r.decl].file
  }

  ghost predicate NeededIn(w: Sources, root: Item, item: Item, n: nat)
    decreases n
  {
    if n == 0 then item == root else exists prev :: NeededIn(w, root, prev, n - 1) && Uses(w, prev, item)
  }

  /** The item is mentioned, directly or through other declarations, by the root. */
  ghost predicate Needed(w: Sources, root: Item, item: Item) {
    exists n: nat :: NeededIn(w, root, item, n)
  }

  /** Everything needed resolves, the config type to a declaration, and each bare name in one way. */
  ghost predicate Unambiguous(w: Sources, root: Item) {
    && Resolve(w, root).Local?
    && (forall i :: Needed(w, root, i) ==> !Resolve(w, i).Unresolved?)
    && (forall i, j :: Needed(w, root, i) && Needed(w, root, j) && i.name == j.name ==> Resolve(w, i) == Resolve(w, j))
  }

  lemma NeededRoot(w: Sources, root: Item)
    ensures Needed(w, root, root)
  {
    assert NeededIn(w, root, root, 0);
  }

  lemma NeededStep(w: Sources, root: Item, from: Item, to: Item)
    requires Needed(w, root, from) && Uses(w, from, to)
    ensures Needed(w, root, to)
  {
    var n: nat :| NeededIn(w, root, from, n);
    assert NeededIn(w, root, to, n + 1);
  }

  /** A set that holds the root and is closed under Uses holds everything needed. */
  lemma {:induction false} NeededClosed(w: Sources, root: Item, done: set<Item>, item: Item, n: nat)
    requires root in done && forall i, j :: i in done && Uses(w, i, j) ==> j in done
    requires NeededIn(w, root, item, n)
    ensures item in done
    decreases n
  {
    if n > 0 {
      var prev :| NeededIn(w, root, prev, n - 1) && Uses(w, prev, item);
      NeededClosed(w, root, done, prev, n - 1);
    }
  }

  // ----- the loop's invariants -----

  /** Some item of that name is needed and resolves so. */
  ghost predicate Backed(w: Sources, root: Item, name: string, r: Resolution) {
    exists i :: Needed(w, root, i) && i.name == name && Resolve(w, i) == r
  }

  /** Nothing is recorded that the config type does not need under that name. */
  ghost predicate Justified(w: Sources, root: Item, queue: seq<Item>, pasted: map<string, string>,
                            refs: map<string, TypeRef>) {
    && (forall i :: i in queue ==> Needed(w, root, i))
    && (forall n :: n in pasted ==> Backed(w, root, n, Local(pasted[n])))
    && (forall n :: n in refs ==> Backed(w, root, n, Imported(refs[n])))
  }

  /** A handled item is recorded under its name. */
  ghost predicate Recorded(w: Sources, i: Item, pasted: map<string, string>, refs: map<string, TypeRef>) {
    match Resolve(w, i)
    case Local(d) => i.name in pasted && pasted[i.name] == d
    case Imported(r) => i.name in refs && refs[i.name] == r
    case Unresolved => false
  }

  /** While no violation was found, every handled item is recorded and what it uses is on its way. */
  ghost predicate Covered(w: Sources, done: set<Item>, queue: seq<Item>, pasted: map<string, string>,
                          refs: map<string, TypeRef>) {
    && (forall i :: i in done ==> Recorded(w, i, pasted, refs))
    && UsesReached(w, done, queue)
    && (forall n :: n in pasted ==> n !in refs)
    && (forall n :: n in pasted ==> PastedFrom(w, done, n, pasted[n]))
  }

  ghost predicate PastedFrom(w: Sources, done: set<Item>, name: string, decl: string) {
    exists k :: k in done && k.name == name && Resolve(w, k) == Local(decl)
  }

  /** The pastes are the recorded declarations, one for each name, the config type's own first. */
  ghost predicate Listed(w: Sources, root: Item, queue: seq<Item>, pastes: seq<string>, pasted: map<string, string>) {
    && (forall d :: d in pastes <==> d in pasted.Values)
    && |pastes| == |pasted|
    && (pastes == [] ==> queue == [] || queue == [root])
    && (pastes != [] ==> Resolve(w, root) == Local(pastes[0]))
  }

  /** The names that can come up at all. */
  ghost function Universe(w: Sources, root: Item): set<string> {
    {root.name} + set d, n | d in w.decls && n in w.decls[d].names :: n
  }

  function Mentions(names: seq<string>, globals: set<string>, file: string): (items: seq<Item>)
    ensures forall i :: i in items <==> i.name in names && i.name !in globals && i.file == file
  {
    if names == [] then []
    else (if names[0] in globals then [] else [Item(names[0], file)]) + Mentions(names[1..], globals, file)
  }

  lemma MentionsAreUses(w: Sources, i: Item, j: Item)
    requires Resolve(w, i).Local?
    ensures var d := w.decls[Resolve(w, i).decl]; j in Mentions(d.names, w.globals, d.file) <==> Uses(w, i, j)
  {
  }

  // ----- one queue item -----

  datatype State = State(queue: seq<Item>, pastes: seq<string>, pasted: map<string, string>,
                         refs: map<string, TypeRef>, violations: seq<Violation>)

  /** What a violation says is so. */
  ghost predicate Tells(w: Sources, root: Item, v: Violation) {
    match v
    case NotFound(i) => Needed(w, root, i) && Resolve(w, i).Unresolved?
    case ConfigTypeImported(n) => n == root.name && exists r :: Backed(w, root, n, Imported(r))
    case LocalThenImport(n) => exists d, r :: Backed(w, root, n, Local(d)) && Backed(w, root, n, Imported(r))
    case ImportThenLocal(n) => exists d, r :: Backed(w, root, n, Local(d)) && Backed(w, root, n, Imported(r))
    case TwoImports(n) => exists r, s :: r != s && Backed(w, root, n, Imported(r)) && Backed(w, root, n, Imported(s))
    case TwoDeclarations(n) => exists d, e :: d != e && Backed(w, root, n, Local(d)) && Backed(w, root, n, Local(e))
  }

  ghost predicate LoopInv(w: Sources, root: Item, s: State, done: set<Item>) {
    && (forall v :: v in s.violations ==> Tells(w, root, v))
    && Justified(w, root, s.queue, s.pasted, s.refs)
    && (s.violations == [] ==> Covered(w, done, s.queue, s.pasted, s.refs))
    && (s.violations != [] ==> !Unambiguous(w, root))
    && (s.violations == [] ==> root in done || root in s.queue)
    && (forall i :: i in s.queue ==> i.name in Universe(w, root))
    && s.pasted.Keys <= Universe(w, root)
    && Listed(w, root, s.queue, s.pastes, s.pasted)
    && root.name !in s.refs
  }

  /** The body of the loop for the item at the head of the queue. */
  function Handle(w: Sources, root: Item, item: Item, s: State): State {
    match Resolve(w, item)
    case Unresolved => s.(violations := s.violations + [NotFound(item)])
    case Imported(ref) =>
      if item.name == root.name then s.(violations := s.violations + [ConfigTypeImported(item.name)])
      else if item.name in s.pasted then s.(violations := s.violations + [LocalThenImport(item.name)])
      else if item.name in s.refs && s.refs[item.name] != ref then
          s.(violations := s.violations + [TwoImports(item.name)])
      else s.(refs := s.refs[item.name := ref])
    case Local(d) =>
      if item.name in s.pasted && s.pasted[item.name] == d then s
      else if item.name in s.pasted then s.(violations := s.violations + [TwoDeclarations(item.name)])
      else if item.name in s.refs then s.(violations := s.violations + [ImportThenLocal(item.name)])
      else
        s.(pasted := s.pasted[item.name := d], pastes := s.pastes + [d],
           queue := s.queue + Mentions(w.decls[d].names, w.globals, w.decls[d].file))
  }

  lemma HandleTells(w: Sources, root: Item, item: Item, s: State)
    requires Justified(w, root, [item] + s.queue, s.pasted, s.refs)
    requires forall v :: v in s.violations ==> Tells(w, root, v)
    ensures forall v :: v in Handle(w, root, item, s).violations ==> Tells(w, root, v)
  {
    assert item in [item] + s.queue;
    BackedBy(w, root, item);
    hide Needed, Backed, Mentions;
    var n := item.name;
    assert n in s.pasted ==> Backed(w, root, n, Local(s.pasted[n]));
    assert n in s.refs ==> Backed(w, root, n, Imported(s.refs[n]));
  }

  /** A violation is only ever reported where the closure really is ambiguous. */
  lemma HandleViolates(w: Sources, root: Item, item: Item, s: State)
    requires Justified(w, root, [item] + s.queue, s.pasted, s.refs)
    requires Handle(w, root, item, s).violations != s.violations
    ensures !Unambiguous(w, root)
  {
    assert item in [item] + s.queue;
    NeededRoot(w, root);
    var n := item.name;
    if n in s.pasted {
      assert Backed(w, root, n, Local(s.pasted[n]));
    }
    if n in s.refs {
      assert Backed(w, root, n, Imported(s.refs[n]));
    }
  }

  lemma HandleJustified(w: Sources, root: Item, item: Item, s: State)
    requires Justified(w, root, [item] + s.queue, s.pasted, s.refs)
    ensures var t := Handle(w, root, item, s); Justified(w, root, t.queue, t.pasted, t.refs)
  {
    HandleQueue(w, root, item, s);
    assert item in [item] + s.queue;
    BackedBy(w, root, item);
    HandleBacked(w, root, item, s);
    hide Handle, Needed, Backed;
  }

  lemma HandleBacked(w: Sources, root: Item, item: Item, s: State)
    requires forall n :: n in s.pasted ==> Backed(w, root, n, Local(s.pasted[n]))
    requires forall n :: n in s.refs ==> Backed(w, root, n, Imported(s.refs[n]))
    requires Backed(w, root, item.name, Resolve(w, item))
    ensures var t := Handle(w, root, item, s);
            && (forall n :: n in t.pasted ==> Backed(w, root, n, Local(t.pasted[n])))
            && (forall n :: n in t.refs ==> Backed(w, root, n, Imported(t.refs[n])))
  {
    hide Backed, Mentions;
  }

  lemma BackedBy(w: Sources, root: Item, item: Item)
    requires Needed(w, root, item)
    ensures Backed(w, root, item.name, Resolve(w, item))
  {
    hide Needed;
  }

  lemma HandleQueue(w: Sources, root: Item, item: Item, s: State)
    requires forall i :: i in [item] + s.queue ==> Needed(w, root, i)
    ensures forall i :: i in Handle(w, root, item, s).queue ==> Needed(w, root, i)
  {
    var t := Handle(w, root, item, s);
    assert item in [item] + s.queue;
    forall i | i in t.queue ensures Needed(w, root, i) {
      if i in s.queue {
        assert i in [item] + s.queue;
      } else {
        MentionsAreUses(w, item, i);
        NeededStep(w, root, item, i);
      }
    }
  }

  /** What a handled item uses is handled or queued. */
  ghost predicate UsesReached(w: Sources, done: set<Item>, queue: seq<Item>) {
    forall i, j {:trigger Uses(w, i, j)} :: i in done && Uses(w, i, j) ==> j in done || j in queue
  }

  lemma HandleUses(w: Sources, root: Item, item: Item, s: State, done: set<Item>)
    requires UsesReached(w, done, [item] + s.queue)
    requires forall n :: n in s.pasted ==> PastedFrom(w, done, n, s.pasted[n])
    requires Handle(w, root, item, s).violations == s.violations
    ensures UsesReached(w, done + {item}, Handle(w, root, item, s).queue)
  {
    var t := Handle(w, root, item, s);
    forall i, j | i in done + {item} && Uses(w, i, j) ensures j in done + {item} || j in t.queue {
      if i in done {
        assert j in done || j in [item] + s.queue;
      } else if item.name !in s.pasted {
        MentionsAreUses(w, item, j);
      } else {
        assert PastedFrom(w, done, item.name, s.pasted[item.name]);
        var k :| k in done && k.name == item.name && Resolve(w, k) == Local(s.pasted[item.name]);
        assert Uses(w, k, j);
        assert j in done || j in [item] + s.queue;
      }
    }
  }

  lemma HandleCovers(w: Sources, root: Item, item: Item, s: State, done: set<Item>)
    requires Covered(w, done, [item] + s.queue, s.pasted, s.refs)
    requires Handle(w, root, item, s).violations == s.violations
    ensures var t := Handle(w, root, item, s); Covered(w, done + {item}, t.queue, t.pasted, t.refs)
  {
    HandlePasted(w, root, item, s, done);
    HandleUses(w, root, item, s, done);
    HandleRecorded(w, root, item, s);
    hide Handle, UsesReached, PastedFrom, Recorded;
  }

  /** What was recorded stays so, the item is recorded too, and no name is both pasted and imported. */
  lemma HandleRecorded(w: Sources, root: Item, item: Item, s: State)
    requires Handle(w, root, item, s).violations == s.violations && forall n :: n in s.pasted ==> n !in s.refs
    ensures var t := Handle(w, root, item, s);
            && Recorded(w, item, t.pasted, t.refs)
            && (forall i :: Recorded(w, i, s.pasted, s.refs) ==> Recorded(w, i, t.pasted, t.refs))
            && (forall n :: n in t.pasted ==> n !in t.refs)
  {
    hide Mentions, Resolve;
  }

  lemma HandlePasted(w: Sources, root: Item, item: Item, s: State, done: set<Item>)
    requires forall n :: n in s.pasted ==> PastedFrom(w, done, n, s.pasted[n])
    ensures var t := Handle(w, root, item, s);
            forall n :: n in t.pasted ==> PastedFrom(w, done + {item}, n, t.pasted[n])
  {
    var t := Handle(w, root, item, s);
    forall n | n in t.pasted ensures PastedFrom(w, done + {item}, n, t.pasted[n]) {
      if n in s.pasted {
        assert PastedFrom(w, done, n, s.pasted[n]);
        var k :| k in done && k.name == n && Resolve(w, k) == Local(s.pasted[n]);
        assert k in done + {item};
      } else {
        assert item in done + {item};
      }
    }
  }

  lemma HandleNames(w: Sources, root: Item, item: Item, s: State)
    requires item.name in Universe(w, root)
    requires (forall i :: i in s.queue ==> i.name in Universe(w, root)) && s.pasted.Keys <= Universe(w, root)
    ensures var t := Handle(w, root, item, s);
            (forall i :: i in t.queue ==> i.name in Universe(w, root)) && t.pasted.Keys <= Universe(w, root)
  {
  }

  lemma HandleListed(w: Sources, root: Item, item: Item, s: State)
    requires Listed(w, root, [item] + s.queue, s.pastes, s.pasted)
    ensures var t := Handle(w, root, item, s); Listed(w, root, t.queue, t.pastes, t.pasted)
  {
    var t := Handle(w, root, item, s);
    if s.pastes == [] {
      assert ([item] + s.queue)[0] == item && |[item] + s.queue| == 1;
      assert s.pasted == map[];
    }
    if t.pasted != s.pasted {
      var d := Resolve(w, item).decl;
      assert t.pasted == s.pasted[item.name := d] && item.name !in s.pasted;
      ValuesGrow(s.pasted, item.name, d);
    }
  }

  lemma ValuesGrow<K, V>(m: map<K, V>, k: K, v: V)
    requires k !in m
    ensures m[k := v].Values == m.Values + {v}
  {
    var t := m[k := v];
    forall x | x in m.Values ensures x in t.Values {
      var n :| n in m && m[n] == x;
      assert t[n] == x;
    }
    assert t[k] == v;
  }

  lemma HandleGrows(w: Sources, root: Item, item: Item, s: State)
    requires root.name !in s.refs
    ensures var t := Handle(w, root, item, s);
            && root.name !in t.refs
            && (forall i :: i in s.queue ==> i in t.queue)
            && (t.violations == s.violations || t.violations != [])
            && (t.violations == [] ==> s.violations == [])
  {
  }

  lemma HandleStep(w: Sources, root: Item, s: State, done: set<Item>)
    requires s.queue != [] && LoopInv(w, root, s, done)
    ensures LoopInv(w, root, Handle(w, root, s.queue[0], s.(queue := s.queue[1..])), done + {s.queue[0]})
  {
    hide Justified, Covered, Unambiguous, Universe, Listed, Handle, Resolve, Tells;
    var item, u := s.queue[0], s.(queue := s.queue[1..]);
    var t := Handle(w, root, item, u);
    assert s.queue == [item] + u.queue;
    HandleTells(w, root, item, u);
    HandleJustified(w, root, item, u);
    HandleNames(w, root, item, u);
    HandleListed(w, root, item, u);
    HandleGrows(w, root, item, u);
    if t.violations != u.violations {
      HandleViolates(w, root, item, u);
    } else if s.violations == [] {
      HandleCovers(w, root, item, u, done);
    }
  }

  lemma StartInv(w: Sources, root: Item)
    ensures LoopInv(w, root, State([root], [], map[], map[], []), {})
  {
    NeededRoot(w, root);
  }

  /** With the queue drained and nothing reported, everything needed was handled. */
  lemma DrainedCovers(w: Sources, root: Item, s: State, done: set<Item>, item: Item)
    requires s.queue == [] && s.violations == [] && LoopInv(w, root, s, done) && Needed(w, root, item)
    ensures item in done && Recorded(w, item, s.pasted, s.refs)
  {
    var n: nat :| NeededIn(w, root, item, n);
    NeededClosed(w, root, done, item, n);
  }

  /** Exactly what the config type needs is there: each needed item under its name in the one way
      it resolves, nothing else, and no name both pasted and imported. */
  ghost predicate ExactClosure(w: Sources, root: Item, pasted: map<string, string>, refs: map<string, TypeRef>) {
    && (forall i :: Needed(w, root, i) ==> Recorded(w, i, pasted, refs))
    && (forall n :: n in pasted ==> Backed(w, root, n, Local(pasted[n])))
    && (forall n :: n in refs ==> Backed(w, root, n, Imported(refs[n])))
    && (forall n :: n in pasted ==> n !in refs)
  }

  lemma DrainedExact(w: Sources, root: Item, s: State, done: set<Item>)
    requires s.queue == [] && LoopInv(w, root, s, done)
    ensures s.violations == [] <==> Unambiguous(w, root)
    ensures s.violations == [] ==> ExactClosure(w, root, s.pasted, s.refs)
    ensures s.violations == [] ==> s.pastes != [] && Resolve(w, root) == Local(s.pastes[0])
  {
    if s.violations == [] {
      forall i | Needed(w, root, i) ensures Recorded(w, i, s.pasted, s.refs) {
        DrainedCovers(w, root, s, done, i);
      }
      NeededRoot(w, root);
      assert Recorded(w, root, s.pasted, s.refs);
      DrainedUnambiguous(w, root, s, done);
    }
  }

  lemma DrainedUnambiguous(w: Sources, root: Item, s: State, done: set<Item>)
    requires s.queue == [] && s.violations == [] && LoopInv(w, root, s, done)
    requires forall i :: Needed(w, root, i) ==> Recorded(w, i, s.pasted, s.refs)
    ensures Unambiguous(w, root)
  {
    NeededRoot(w, root);
    hide Needed;
    assert Recorded(w, root, s.pasted, s.refs);
    forall i, j | Needed(w, root, i) && Needed(w, root, j) && i.name == j.name ensures Resolve(w, i) == Resolve(w, j) {
      assert Recorded(w, i, s.pasted, s.refs) && Recorded(w, j, s.pasted, s.refs);
      assert i.name in s.pasted ==> i.name !in s.refs;
    }
  }

  /** In an exact closure every name a pasted declaration mentions, unless global, is pasted or
      imported, never both, and as it resolves from that declaration's file. */
  lemma ClosureIsClosed(w: Sources, root: Item, pasted: map<string, string>, refs: map<string, TypeRef>, name: string,
                        mention: string)
    requires ExactClosure(w, root, pasted, refs) && name in pasted && pasted[name] in w.decls
    requires mention in w.decls[pasted[name]].names && mention !in w.globals
    ensures (mention in pasted) != (mention in refs)
    ensures var r := Resolve(w, Item(mention, w.decls[pasted[name]].file));
            if mention in pasted then r == Local(pasted[mention]) else r == Imported(refs[mention])
  {
    assert Backed(w, root, name, Local(pasted[name]));
    var i :| Needed(w, root, i) && i.name == name && Resolve(w, i) == Local(pasted[name]);
    var j := Item(mention, w.decls[pasted[name]].file);
    assert Uses(w, i, j);
    NeededStep(w, root, i, j);
    assert Recorded(w, j, pasted, refs);
  }

  // ----- the order of the pastes -----

  /** What is mentioned is kept in its order. */
  lemma {:induction false} MentionsConcat(a: seq<string>, b: seq<string>, globals: set<string>, file: string)
    ensures Mentions(a + b, globals, file) == Mentions(a, globals, file) + Mentions(b, globals, file)
    ensures forall n :: Mentions([n], globals, file) == if n in globals then [] else [Item(n, file)]
  {
    if a == [] {
      assert a + b == b;
    } else {
      assert (a + b)[1..] == a[1..] + b;
      MentionsConcat(a[1..], b, globals, file);
    }
  }

  /** The i-th handled item brings in its declaration: it has one, and no earlier item has its name. */
  ghost predicate BringsIn(w: Sources, handled: seq<Item>, i: nat)
    requires i < |handled|
  {
    Resolve(w, handled[i]).Local? && forall j :: 0 <= j < i ==> handled[j].name != handled[i].name
  }

  /** What the first n handled items put into the queue. */
  ghost function Queued(w: Sources, handled: seq<Item>, n: nat): seq<Item>
    requires n <= |handled|
  {
    if n == 0 then [] else Queued(w, handled, n - 1) + QueuedBy(w, handled, n - 1)
  }

  ghost function QueuedBy(w: Sources, handled: seq<Item>, i: nat): seq<Item>
    requires i < |handled|
  {
    if !BringsIn(w, handled, i) then []
    else
      var d := w.decls[Resolve(w, handled[i]).decl];
      Mentions(d.names, w.globals, d.file)
  }

  /** The declarations they bring in. */
  ghost function Brought(w: Sources, handled: seq<Item>, n: nat): seq<string>
    requires n <= |handled|
  {
    if n == 0 then []
    else if BringsIn(w, handled, n - 1) then Brought(w, handled, n - 1) + [Resolve(w, handled[n - 1]).decl]
    else Brought(w, handled, n - 1)
  }

  /** Breadth first: the items are handled in the order in which they are mentioned, and the pastes are
      the declarations they bring in, in that order. */
  ghost predicate BreadthFirst(w: Sources, root: Item, handled: seq<Item>, queue: seq<Item>, pastes: seq<string>) {
    handled + queue == [root] + Queued(w, handled, |handled|) && pastes == Brought(w, handled, |handled|)
  }

  lemma {:induction false} QueuedPrefix(w: Sources, handled: seq<Item>, more: seq<Item>, n: nat)
    requires n <= |handled|
    ensures Queued(w, handled + more, n) == Queued(w, handled, n)
    ensures Brought(w, handled + more, n) == Brought(w, handled, n)
  {
    if n > 0 {
      QueuedPrefix(w, handled, more, n - 1);
      var all := handled + more;
      assert forall j :: 0 <= j < n ==> all[j] == handled[j];
      assert BringsIn(w, all, n - 1) <==> BringsIn(w, handled, n - 1);
    }
  }

  /** While no violation is found, an item brings in its declaration exactly if it is handled first. */
  lemma HandledBrings(w: Sources, root: Item, item: Item, s: State, handled: seq<Item>, done: set<Item>)
    requires Covered(w, done, [item] + s.queue, s.pasted, s.refs) && done == set i | i in handled
    requires Handle(w, root, item, s).violations == s.violations
    ensures BringsIn(w, handled + [item], |handled|) <==> Resolve(w, item).Local? && item.name !in s.pasted
  {
    var all := handled + [item];
    assert all[|handled|] == item;
    if Resolve(w, item).Local? && item.name in s.pasted {
      assert PastedFrom(w, done, item.name, s.pasted[item.name]);
      var k :| k in done && k.name == item.name && Resolve(w, k) == Local(s.pasted[item.name]);
      var j :| 0 <= j < |handled| && handled[j] == k;
      assert all[j] == k;
    }
    if Resolve(w, item).Local? && item.name !in s.pasted {
      forall j | 0 <= j < |handled| ensures all[j].name != item.name {
        assert handled[j] in done && Recorded(w, handled[j], s.pasted, s.refs);
      }
    }
  }

  /** What handling an item adds, as long as it is no violation. */
  lemma HandleAdds(w: Sources, root: Item, item: Item, s: State)
    requires Handle(w, root, item, s).violations == s.violations
    ensures var t, r := Handle(w, root, item, s), Resolve(w, item);
            if r.Local? && item.name !in s.pasted then
              && t.queue == s.queue + Mentions(w.decls[r.decl].names, w.globals, w.decls[r.decl].file)
              && t.pastes == s.pastes + [r.decl]
            else t.queue == s.queue && t.pastes == s.pastes
  {
    hide Mentions, Resolve;
  }

  lemma HandleInOrder(w: Sources, root: Item, item: Item, s: State, handled: seq<Item>, done: set<Item>)
    requires Covered(w, done, [item] + s.queue, s.pasted, s.refs) && done == set i | i in handled
    requires Handle(w, root, item, s).violations == s.violations
    requires BreadthFirst(w, root, handled, [item] + s.queue, s.pastes)
    ensures var t := Handle(w, root, item, s); BreadthFirst(w, root, handled + [item], t.queue, t.pastes)
  {
    hide Mentions, Covered, Handle, BringsIn, Resolve;
    HandledBrings(w, root, item, s, handled, done);
    HandleAdds(w, root, item, s);
    QueuedPrefix(w, handled, [item], |handled|);
    var t, all := Handle(w, root, item, s), handled + [item];
    assert all[|handled|] == item;
    Regroup(handled, item, s.queue, QueuedBy(w, all, |handled|), [root], Queued(w, handled, |handled|));
    if !BringsIn(w, all, |handled|) { assert s.queue + [] == s.queue; }
  }

  lemma Regroup(handled: seq<Item>, item: Item, queue: seq<Item>, more: seq<Item>, root: seq<Item>, before: seq<Item>)
    requires handled + ([item] + queue) == root + before
    ensures (handled + [item]) + (queue + more) == root + (before + more)
  {
    assert (handled + [item]) + (queue + more) == (handled + ([item] + queue)) + more;
  }

  /** Drain the queue. The loop ends on mutually recursive declarations, reports a violation exactly
      when the closure is ambiguous, and otherwise leaves exactly the closure. */
  method Collect(w: Sources, root: Item) returns (pastes: seq<string>, pasted: map<string, string>,
                                                  refs: map<string, TypeRef>, violations: seq<Violation>)
    ensures violations == [] <==> Unambiguous(w, root)
    ensures violations == [] ==> ExactClosure(w, root, pasted, refs)
    ensures violations == [] ==> pastes != [] && Resolve(w, root) == Local(pastes[0])
    ensures forall v :: v in violations ==> Tells(w, root, v)
    ensures violations == [] ==> exists handled :: BreadthFirst(w, root, handled, [], pastes)
    ensures |pastes| == |pasted| && forall d :: d in pastes <==> d in pasted.Values
  {
    hide BreadthFirst, Tells, ExactClosure, Unambiguous, Justified, Covered;
    var queue := [root];
    pastes, pasted, refs, violations := [], map[], map[], [];
    ghost var done: set<Item>, handled: seq<Item> := {}, [];
    StartInv(w, root);
    StartInOrder(w, root);
    while queue != []
      invariant LoopInv(w, root, State(queue, pastes, pasted, refs, violations), done)
      invariant done == set i | i in handled
      invariant violations == [] ==> BreadthFirst(w, root, handled, queue, pastes)
      decreases Universe(w, root) - pasted.Keys, |queue|
    {
      ghost var before := State(queue, pastes, pasted, refs, violations);
      HandleStep(w, root, before, done);
      UniverseShrinks(w, root, before);
      StepInOrder(w, root, before, handled, done);
      hide LoopInv, Universe;
      var item := queue[0];
      queue := queue[1..];
      done := done + {item};
      assert handled + [item] == handled + [before.queue[0]];
      handled := handled + [item];
      match Resolve(w, item) {
        case Unresolved => violations := violations + [NotFound(item)];
        case Imported(ref) =>
          if item.name == root.name {
            violations := violations + [ConfigTypeImported(item.name)];
          } else if item.name in pasted {
            violations := violations + [LocalThenImport(item.name)];
          } else if item.name in refs && refs[item.name] != ref {
            violations := violations + [TwoImports(item.name)];
          } else {
            refs := refs[item.name := ref];
          }
        case Local(d) =>
          if item.name in pasted && pasted[item.name] == d {
          } else if item.name in pasted {
            violations := violations + [TwoDeclarations(item.name)];
          } else if item.name in refs {
            violations := violations + [ImportThenLocal(item.name)];
          } else {
            pasted := pasted[item.name := d];
            pastes := pastes + [d];
            queue := queue + Mentions(w.decls[d].names, w.globals, w.decls[d].file);
          }
      }
      assert State(queue, pastes, pasted, refs, violations) ==
             Handle(w, root, item, before.(queue := before.queue[1..]));
    }
    DrainedExact(w, root, State(queue, pastes, pasted, refs, violations), done);
  }

  lemma StartInOrder(w: Sources, root: Item)
    ensures BreadthFirst(w, root, [], [root], [])
  {
  }

  lemma StepInOrder(w: Sources, root: Item, s: State, handled: seq<Item>, done: set<Item>)
    requires s.queue != [] && LoopInv(w, root, s, done) && done == set i | i in handled
    requires s.violations == [] ==> BreadthFirst(w, root, handled, s.queue, s.pastes)
    ensures var t := Handle(w, root, s.queue[0], s.(queue := s.queue[1..]));
            t.violations == [] ==> BreadthFirst(w, root, handled + [s.queue[0]], t.queue, t.pastes)
  {
    hide Justified, Covered, Unambiguous, Universe, Listed, Handle, Resolve, Tells, BreadthFirst;
    var item, u := s.queue[0], s.(queue := s.queue[1..]);
    HandleGrows(w, root, item, u);
    assert s.queue == [item] + u.queue;
    if Handle(w, root, item, u).violations == [] { HandleInOrder(w, root, item, u, handled, done); }
  }

  lemma UniverseShrinks(w: Sources, root: Item, s: State)
    requires s.queue != [] && forall i :: i in s.queue ==> i.name in Universe(w, root)
    ensures var t := Handle(w, root, s.queue[0], s.(queue := s.queue[1..]));
            || (t.pasted == s.pasted && |t.queue| < |s.queue|)
            || Universe(w, root) - t.pasted.Keys < Universe(w, root) - s.pasted.Keys
  {
    var item, t := s.queue[0], Handle(w, root, s.queue[0], s.(queue := s.queue[1..]));
    assert item in s.queue;
    if t.pasted != s.pasted {
      assert item.name in Universe(w, root) - s.pasted.Keys;
      assert item.name !in Universe(w, root) - t.pasted.Keys;
    }
  }
}
