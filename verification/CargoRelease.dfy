/** What may change in a Cargo.lock that Cargo wrote without changing its graph: local versions,
    the order of packages, and the order and spelling of dependencies; and nothing else. */
module CargoRelease {
  import opened Collections
  import opened CargoReference
  import opened CargoGraph

  /** A locked package before it is written: its dependencies are packages, not references. */
  datatype Package = Package(key: Key, extra: Entries, targets: seq<Identity>)

  const RESERVED: set<string> := {"name", "version", "source", "dependencies"}

  function KeysOf(ps: seq<Package>): (ks: seq<Key>)
    ensures |ks| == |ps|
  {
    seq(|ps|, i requires 0 <= i < |ps| => ps[i].key)
  }

  ghost predicate Locked(ks: seq<Key>, id: Identity) { exists i :: 0 <= i < |ks| && IdentityOf(ks[i]) == id }

  ghost function IndexOf(ks: seq<Key>, id: Identity): (i: nat)
    requires Locked(ks, id)
    ensures i < |ks| && IdentityOf(ks[i]) == id
  {
    var i :| 0 <= i < |ks| && IdentityOf(ks[i]) == id;
    i
  }

  ghost predicate WellFormed(ps: seq<Package>) {
    && ps != [] && Tellable(KeysOf(ps))
    && forall i :: 0 <= i < |ps| ==>
         && ps[i].extra.Keys !! RESERVED
         && forall t :: t in ps[i].targets ==> Locked(KeysOf(ps), t)
  }

  /** The reference that Cargo writes for a dependency. */
  ghost function Written(ks: seq<Key>, target: Identity): string
    requires Locked(ks, target)
  {
    ReferenceText(Spelling(ks, IndexOf(ks, target)))
  }

  ghost function References(ks: seq<Key>, targets: seq<Identity>): (r: seq<string>)
    requires forall t :: t in targets ==> Locked(ks, t)
    ensures |r| == |targets|
  {
    if targets == [] then [] else [Written(ks, targets[0])] + References(ks, targets[1..])
  }

  /** The fields that identify a package; a local one has no source. */
  function KeyFields(k: Key): Entries {
    var own := map["name" := Text(k.name), "version" := Text(k.version)];
    if k.source.Some? then own["source" := Text(k.source.value)] else own
  }

  ghost function WrittenEntry(ks: seq<Key>, p: Package): Entries
    requires forall t :: t in p.targets ==> Locked(ks, t)
  {
    var rs := References(ks, p.targets);
    var e := p.extra + KeyFields(p.key);
    if p.targets == [] then e
    else e["dependencies" := List(seq(|rs|, i requires 0 <= i < |rs| => Text(rs[i])))]
  }

  /** The lock that Cargo writes for these packages, with `rest` beside them. */
  ghost function WrittenLock(ps: seq<Package>, rest: Entries): Entries
    requires WellFormed(ps)
  {
    rest["package" := List(seq(|ps|, i requires 0 <= i < |ps| => Table(WrittenEntry(KeysOf(ps), ps[i]))))]
  }

  // ---------------------------------------------------------------- reading it back

  lemma {:induction false} WrittenEntryReads(ks: seq<Key>, p: Package)
    requires forall t :: t in p.targets ==> Locked(ks, t)
    requires p.extra.Keys !! RESERVED
    requires IsWord(p.key.name) && IsWord(p.key.version) && (p.key.source.Some? ==> IsWord(BeforeHash(p.key.source.value)))
    ensures var t := Table(WrittenEntry(ks, p));
            Readable(t) && ReadNode(t) == Node(p.key, WrittenEntry(ks, p), References(ks, p.targets))
  {
    hide References, IsSpace, Locked;
    var e := WrittenEntry(ks, p);
    assert "name" in e && e["name"] == Text(p.key.name);
    assert "version" in e && e["version"] == Text(p.key.version);
    assert "source" in e <==> p.key.source.Some?;
    assert p.key.source.Some? ==> e["source"] == Text(p.key.source.value);
    assert "dependencies" in e <==> p.targets != [];
    assert DependenciesOf(e) == References(ks, p.targets);
  }

  lemma {:induction false} WrittenEdges(ks: seq<Key>, targets: seq<Identity>)
    requires Tellable(ks) && forall t :: t in targets ==> Locked(ks, t)
    ensures Edges(References(ks, targets), ks) == Ok(targets)
  {
    hide Tellable, Locked, Resolve, ReferenceText, Spelling;
    if targets != [] {
      ResolveUndoesSpelling(ks, IndexOf(ks, targets[0]));
      WrittenEdges(ks, targets[1..]);
      assert targets == [targets[0]] + targets[1..];
      assert References(ks, targets)[1..] == References(ks, targets[1..]);
    }
  }

  /** What a package means, without going through its text. */
  ghost function PackageMeans(p: Package): PackageMeaning {
    var own := if p.key.source.None? then KeyFields(p.key) - {"version"} else KeyFields(p.key);
    PackageMeaning(IdentityOf(p.key), p.extra + own, multiset(p.targets))
  }

  lemma {:induction false} WrittenFields(ks: seq<Key>, p: Package)
    requires forall t :: t in p.targets ==> Locked(ks, t)
    requires p.extra.Keys !! RESERVED
    ensures Fields(Node(p.key, WrittenEntry(ks, p), References(ks, p.targets))) == PackageMeans(p).fields
  {
    hide References, Locked;
    assert "version" !in p.extra && "dependencies" !in p.extra;
  }

  /** The packages of the written lock resolve, and mean what the packages mean. */
  lemma {:induction false} WrittenLockMeans(ps: seq<Package>, rest: Entries)
    requires WellFormed(ps)
    ensures Graph(WrittenLock(ps, rest)).Ok?
    ensures var nodes := Nodes(WrittenLock(ps, rest)).value;
            && Resolved(nodes, Keys(nodes)) && |nodes| == |ps|
            && forall i :: 0 <= i < |ps| ==> MeaningOf(nodes[i], Keys(nodes)) == PackageMeans(ps[i])
  {
    hide WrittenEntry, Readable, ReadNode, Edges, IsWord, Fields, PackageMeans;
    var ks := KeysOf(ps);
    var items := WrittenLock(ps, rest)["package"].items;
    forall i | 0 <= i < |ps|
      ensures Readable(items[i]) && ReadNode(items[i]) == Node(ps[i].key, WrittenEntry(ks, ps[i]), References(ks, ps[i].targets))
    {
      assert ks[i] == ps[i].key;
      WrittenEntryReads(ks, ps[i]);
    }
    var nodes := seq(|items|, i requires 0 <= i < |items| => ReadNode(items[i]));
    assert Keys(nodes) == ks;
    assert Nodes(WrittenLock(ps, rest)).Ok? && Nodes(WrittenLock(ps, rest)).value == nodes;
    forall i | 0 <= i < |nodes| ensures Edges(nodes[i].dependencies, ks) == Ok(ps[i].targets) && Fields(nodes[i]) == PackageMeans(ps[i]).fields {
      WrittenEdges(ks, ps[i].targets);
      WrittenFields(ks, ps[i]);
    }
    AllEntriesAre(nodes, ks);
    forall i | 0 <= i < |ps| ensures MeaningOf(nodes[i], ks) == PackageMeans(ps[i]) {
      MeaningByParts(nodes[i], ks, ps[i]);
    }
  }

  lemma {:induction false} MeaningByParts(n: Node, ks: seq<Key>, p: Package)
    requires Edges(n.dependencies, ks) == Ok(p.targets) && n.key == p.key && Fields(n) == PackageMeans(p).fields
    ensures MeaningOf(n, ks) == PackageMeans(p)
  {
  }

  // ---------------------------------------------------------------- a release keeps the key, nothing else does

  /** The same package, up to the version of a local one and the order of its dependencies. */
  ghost predicate SamePackage(p: Package, q: Package) {
    && p.key.name == q.key.name && p.key.source == q.key.source && p.extra == q.extra
    && (p.key.source.Some? ==> p.key.version == q.key.version)
    && multiset(p.targets) == multiset(q.targets)
  }

  ghost predicate Keeps(qs: seq<Package>, p: Package) {
    exists j :: 0 <= j < |qs| && SamePackage(p, qs[j])
  }

  ghost predicate Within(ps: seq<Package>, qs: seq<Package>) {
    forall i :: 0 <= i < |ps| ==> Keeps(qs, ps[i])
  }

  ghost predicate SamePackages(ps: seq<Package>, qs: seq<Package>) { Within(ps, qs) && Within(qs, ps) }

  lemma {:induction false} SamePackageMeansAlike(p: Package, q: Package)
    requires p.extra.Keys !! RESERVED && q.extra.Keys !! RESERVED
    requires (p.key.source.Some? ==> p.key.source.value != "") && (q.key.source.Some? ==> q.key.source.value != "")
    ensures SamePackage(p, q) <==> PackageMeans(p) == PackageMeans(q)
  {
    if PackageMeans(p) == PackageMeans(q) {
      assert p.extra == PackageMeans(p).fields - RESERVED && q.extra == PackageMeans(q).fields - RESERVED;
    }
  }

  /** The graph of a lock that Cargo wrote changes exactly when something other than local
      versions, package order, dependency order and spelling changes. */
  lemma {:induction false} ReleaseKeepsGraph(ps: seq<Package>, qs: seq<Package>, rest: Entries, rest': Entries)
    requires WellFormed(ps) && WellFormed(qs) && "package" !in rest && "package" !in rest'
    ensures Graph(WrittenLock(ps, rest)).Ok? && Graph(WrittenLock(qs, rest')).Ok?
    ensures Graph(WrittenLock(ps, rest)) == Graph(WrittenLock(qs, rest')) <==> rest == rest' && SamePackages(ps, qs)
  {
    hide WellFormed, AllEntries, Nodes, Keys, Resolved, MeaningOf, Within;
    var (a, b) := (WrittenLock(ps, rest), WrittenLock(qs, rest'));
    WrittenLockMeans(ps, rest);
    WrittenLockMeans(qs, rest');
    GraphDecides(a, b);
    assert a - {"package"} == rest && b - {"package"} == rest';
    hide WrittenLock;
    WithinDecides(ps, qs, Nodes(a).value, Nodes(b).value);
    WithinDecides(qs, ps, Nodes(b).value, Nodes(a).value);
  }

  ghost predicate NodesMean(ps: seq<Package>, m: seq<Node>) {
    |m| == |ps| && Resolved(m, Keys(m)) && forall i :: 0 <= i < |ps| ==> MeaningOf(m[i], Keys(m)) == PackageMeans(ps[i])
  }

  lemma {:induction false} WithinDecides(ps: seq<Package>, qs: seq<Package>, m: seq<Node>, n: seq<Node>)
    requires WellFormed(ps) && WellFormed(qs) && NodesMean(ps, m) && NodesMean(qs, n)
    ensures Meanings(m) <= Meanings(n) <==> Within(ps, qs)
  {
    hide WellFormed, PackageMeans, Edges;
    if Meanings(m) <= Meanings(n) {
      forall i | 0 <= i < |ps| ensures Keeps(qs, ps[i]) {
        assert MeaningOf(m[i], Keys(m)) in Meanings(n);
        var j :| 0 <= j < |n| && MeaningOf(n[j], Keys(n)) == MeaningOf(m[i], Keys(m));
        SameByMeaning(ps, qs, m, n, i, j);
        assert SamePackage(ps[i], qs[j]);
      }
      assert Within(ps, qs);
    }
    if Within(ps, qs) {
      forall x | x in Meanings(m) ensures x in Meanings(n) {
        var i :| 0 <= i < |m| && x == MeaningOf(m[i], Keys(m));
        assert Keeps(qs, ps[i]);
        var j :| 0 <= j < |qs| && SamePackage(ps[i], qs[j]);
        SameByMeaning(ps, qs, m, n, i, j);
        assert x == MeaningOf(n[j], Keys(n));
      }
      assert Meanings(m) <= Meanings(n);
    }
  }

  lemma {:induction false} SameByMeaning(ps: seq<Package>, qs: seq<Package>, m: seq<Node>, n: seq<Node>, i: nat, j: nat)
    requires WellFormed(ps) && WellFormed(qs) && NodesMean(ps, m) && NodesMean(qs, n) && i < |ps| && j < |qs|
    ensures SamePackage(ps[i], qs[j]) <==> MeaningOf(m[i], Keys(m)) == MeaningOf(n[j], Keys(n))
  {
    hide WellFormed, SamePackage, PackageMeans, MeaningOf, Edges;
    WellFormedAt(ps, i);
    WellFormedAt(qs, j);
    SamePackageMeansAlike(ps[i], qs[j]);
  }

  lemma {:induction false} WellFormedAt(ps: seq<Package>, i: nat)
    requires WellFormed(ps) && i < |ps|
    ensures ps[i].extra.Keys !! RESERVED && (ps[i].key.source.Some? ==> ps[i].key.source.value != "")
  {
    hide WordChar;
    assert KeysOf(ps)[i] == ps[i].key;
  }
}
