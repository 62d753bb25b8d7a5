/** The normal form of a Cargo.lock that the cache key hashes. */
module CargoGraph {
  import opened Collections
  import opened Sorting
  import opened CargoReference

  /** A TOML value; numbers, booleans and dates are known by their text. */
  datatype Toml = Text(s: string) | List(items: seq<Toml>) | Table(entries: map<string, Toml>) | Scalar(text: string)

  type Entries = map<string, Toml>

  /** A `[[package]]` as read: its key, its other fields and its dependency references. */
  datatype Node = Node(key: Key, entry: Entries, dependencies: seq<string>)

  // ---------------------------------------------------------------- reading packages

  predicate IsText(t: Toml) { t.Text? && t.s != [] }

  predicate AllText(items: seq<Toml>) { forall i :: 0 <= i < |items| ==> items[i].Text? }

  predicate ReadableDependencies(e: Entries) {
    "dependencies" in e ==> e["dependencies"].List? && AllText(e["dependencies"].items)
  }

  /** The entry has a name, a version, perhaps a source, and readable dependencies. */
  predicate Readable(t: Toml) {
    && t.Table?
    && "name" in t.entries && IsText(t.entries["name"])
    && "version" in t.entries && IsText(t.entries["version"])
    && ("source" in t.entries ==> IsText(t.entries["source"]))
    && ReadableDependencies(t.entries)
  }

  function DependenciesOf(e: Entries): (r: seq<string>)
    requires ReadableDependencies(e)
  {
    if "dependencies" !in e then []
    else
      var items := e["dependencies"].items;
      seq(|items|, i requires 0 <= i < |items| => items[i].s)
  }

  function ReadNode(t: Toml): Node
    requires Readable(t)
  {
    var e := t.entries;
    Node(Key(e["name"].s, e["version"].s, if "source" in e then Some(e["source"].s) else None), e, DependenciesOf(e))
  }

  function Keys(nodes: seq<Node>): (ks: seq<Key>)
    ensures |ks| == |nodes|
  {
    seq(|nodes|, i requires 0 <= i < |nodes| => nodes[i].key)
  }

  predicate DistinctIdentities(ks: seq<Key>) {
    forall i, j :: 0 <= i < j < |ks| ==> IdentityOf(ks[i]) != IdentityOf(ks[j])
  }

  function Nodes(lock: Entries): Result<seq<Node>> {
    if "package" !in lock || !lock["package"].List? || lock["package"].items == [] then Err
    else
      var items := lock["package"].items;
      if exists i :: 0 <= i < |items| && !Readable(items[i]) then Err
      else
        var nodes := seq(|items|, i requires 0 <= i < |items| => ReadNode(items[i]));
        if DistinctIdentities(Keys(nodes)) then Ok(nodes) else Err
  }

  // ---------------------------------------------------------------- the normal form

  predicate IdentityLeq(a: Identity, b: Identity) {
    if a.name != b.name then StringLeq(a.name, b.name)
    else if a.version != b.version then StringLeq(a.version, b.version)
    else StringLeq(a.source, b.source)
  }

  function IdentityToml(i: Identity): Toml { List([Text(i.name), Text(i.version), Text(i.source)]) }

  /** The resolved dependencies of a package, or an error if any fails. */
  function Edges(dependencies: seq<string>, ks: seq<Key>): (r: Result<seq<Identity>>)
    ensures r.Ok? ==> |r.value| == |dependencies|
  {
    if dependencies == [] then Ok([])
    else
      match (Resolve(dependencies[0], ks), Edges(dependencies[1..], ks))
      case (Ok(first), Ok(rest)) => Ok([first] + rest)
      case (_, _) => Err
  }

  function EdgesToml(edges: seq<Identity>): Toml {
    var sorted := Sort(edges, IdentityLeq);
    List(seq(|sorted|, i requires 0 <= i < |sorted| => IdentityToml(sorted[i])))
  }

  /** The fields of a package that enter the hash, dependencies aside. */
  function Fields(n: Node): Entries {
    if n.key.source.None? then n.entry - {"dependencies", "version"} else n.entry - {"dependencies"}
  }

  /** A package after normalization, with the identity it is sorted by. */
  datatype Entry = Entry(identity: Identity, record: Entries)

  function EntryOf(n: Node, edges: seq<Identity>): Entry {
    Entry(IdentityOf(n.key), Fields(n)["dependencies" := EdgesToml(edges)])
  }

  predicate EntryLeq(a: Entry, b: Entry) { IdentityLeq(a.identity, b.identity) }

  function AllEntries(nodes: seq<Node>, ks: seq<Key>): (r: Result<seq<Entry>>)
    ensures r.Ok? ==> |r.value| == |nodes|
  {
    if nodes == [] then Ok([])
    else
      match (Edges(nodes[0].dependencies, ks), AllEntries(nodes[1..], ks))
      case (Ok(edges), Ok(rest)) => Ok([EntryOf(nodes[0], edges)] + rest)
      case (_, _) => Err
  }

  function Records(entries: seq<Entry>): Toml {
    List(seq(|entries|, i requires 0 <= i < |entries| => Table(entries[i].record)))
  }

  function Graph(lock: Entries): Result<Entries> {
    match Nodes(lock)
    case Err => Err
    case Ok(nodes) =>
      match AllEntries(nodes, Keys(nodes))
      case Err => Err
      case Ok(entries) => Ok((lock - {"package"})["package" := Records(Sort(entries, EntryLeq))])
  }

  // ---------------------------------------------------------------- the orders

  lemma {:induction false} IdentityLeqIsTotalPreorder()
    ensures TotalPreorder(IdentityLeq)
  {
    hide StringLeq;
    forall a, b ensures IdentityLeq(a, b) || IdentityLeq(b, a) {
      StringLeqTotal(a.name, b.name);
      StringLeqTotal(a.version, b.version);
      StringLeqTotal(a.source, b.source);
    }
    forall a, b, c | IdentityLeq(a, b) && IdentityLeq(b, c) ensures IdentityLeq(a, c) {
      IdentityLeqTransitive(a, b, c);
    }
  }

  lemma {:induction false} IdentityLeqTransitive(a: Identity, b: Identity, c: Identity)
    requires IdentityLeq(a, b) && IdentityLeq(b, c)
    ensures IdentityLeq(a, c)
  {
    hide StringLeq;
    if a.name != b.name && b.name != c.name {
      if a.name == c.name { StringLeqAntisymmetric(a.name, b.name); }
      StringLeqTransitive(a.name, b.name, c.name);
    } else if a.name == b.name == c.name {
      if a.version != b.version && b.version != c.version {
        if a.version == c.version { StringLeqAntisymmetric(a.version, b.version); }
        StringLeqTransitive(a.version, b.version, c.version);
      } else if a.version == b.version == c.version {
        StringLeqTransitive(a.source, b.source, c.source);
      }
    }
  }

  lemma {:induction false} IdentityLeqAntisymmetric(a: Identity, b: Identity)
    requires IdentityLeq(a, b) && IdentityLeq(b, a)
    ensures a == b
  {
    hide StringLeq;
    if a.name != b.name { StringLeqAntisymmetric(a.name, b.name); }
    else if a.version != b.version { StringLeqAntisymmetric(a.version, b.version); }
    else { StringLeqAntisymmetric(a.source, b.source); }
  }

  lemma {:induction false} EntryLeqIsTotalPreorder()
    ensures TotalPreorder(EntryLeq)
  {
    IdentityLeqIsTotalPreorder();
    hide IdentityLeq;
    forall a, b ensures EntryLeq(a, b) || EntryLeq(b, a) { assert IdentityLeq(a.identity, b.identity) || IdentityLeq(b.identity, a.identity); }
    forall a, b, c | EntryLeq(a, b) && EntryLeq(b, c) ensures EntryLeq(a, c) {
      IdentityLeqTransitive(a.identity, b.identity, c.identity);
    }
  }

  ghost predicate DistinctEntries(es: seq<Entry>) {
    forall i, j :: 0 <= i < j < |es| ==> es[i].identity != es[j].identity
  }

  lemma {:induction false} EntryLeqAntisymmetric(es: seq<Entry>)
    requires DistinctEntries(es)
    ensures AntisymmetricOn(es, EntryLeq)
  {
    hide IdentityLeq;
    forall x, y | x in es && y in es && EntryLeq(x, y) && EntryLeq(y, x) ensures x == y {
      IdentityLeqAntisymmetric(x.identity, y.identity);
    }
  }

  lemma {:induction false} EdgesTomlDecides(a: seq<Identity>, b: seq<Identity>)
    ensures EdgesToml(a) == EdgesToml(b) <==> multiset(a) == multiset(b)
  {
    hide IdentityLeq, Sort;
    IdentityLeqIsTotalPreorder();
    forall x, y | x in a && y in a && IdentityLeq(x, y) && IdentityLeq(y, x) ensures x == y { IdentityLeqAntisymmetric(x, y); }
    SortIsCanonical(a, b, IdentityLeq);
    var (s, t) := (Sort(a, IdentityLeq), Sort(b, IdentityLeq));
    if EdgesToml(a) == EdgesToml(b) {
      var (u, v) := (EdgesToml(a).items, EdgesToml(b).items);
      assert |s| == |u| == |v| == |t|;
      forall i | 0 <= i < |s| ensures s[i] == t[i] {
        assert u[i] == IdentityToml(s[i]) && v[i] == IdentityToml(t[i]);
        TomlDeterminesIdentity(s[i], t[i]);
      }
      assert s == t;
    }
  }

  lemma {:induction false} TomlDeterminesIdentity(a: Identity, b: Identity)
    requires IdentityToml(a) == IdentityToml(b)
    ensures a == b
  {
    var (u, v) := (IdentityToml(a).items, IdentityToml(b).items);
    assert u[0] == v[0] && u[1] == v[1] && u[2] == v[2];
  }

  // ---------------------------------------------------------------- what the normal form means

  /** A package up to everything the key ignores: the local version, and the order and spelling of references. */
  datatype PackageMeaning = PackageMeaning(identity: Identity, fields: Entries, edges: multiset<Identity>)

  ghost predicate Resolved(nodes: seq<Node>, ks: seq<Key>) {
    forall i :: 0 <= i < |nodes| ==> Edges(nodes[i].dependencies, ks).Ok?
  }

  ghost function MeaningOf(n: Node, ks: seq<Key>): PackageMeaning
    requires Edges(n.dependencies, ks).Ok?
  {
    PackageMeaning(IdentityOf(n.key), Fields(n), multiset(Edges(n.dependencies, ks).value))
  }

  ghost function Meanings(nodes: seq<Node>): set<PackageMeaning>
    requires Resolved(nodes, Keys(nodes))
  {
    set i | 0 <= i < |nodes| :: MeaningOf(nodes[i], Keys(nodes))
  }

  lemma {:induction false} AllEntriesAre(nodes: seq<Node>, ks: seq<Key>)
    ensures AllEntries(nodes, ks).Ok? <==> Resolved(nodes, ks)
    ensures AllEntries(nodes, ks).Ok? ==> forall i :: 0 <= i < |nodes| ==>
              AllEntries(nodes, ks).value[i] == EntryOf(nodes[i], Edges(nodes[i].dependencies, ks).value)
  {
    hide Edges, EntryOf;
    if nodes != [] {
      AllEntriesAre(nodes[1..], ks);
      assert forall i :: 1 <= i < |nodes| ==> nodes[i] == nodes[1..][i - 1];
      assert forall i :: 0 <= i < |nodes[1..]| ==> nodes[1..][i] == nodes[i + 1];
    }
  }

  /** The entry's own fields say what its key is. */
  predicate Consistent(n: Node) {
    && "name" in n.entry && n.entry["name"] == Text(n.key.name)
    && "version" in n.entry && n.entry["version"] == Text(n.key.version)
    && ("source" in n.entry <==> n.key.source.Some?)
    && (n.key.source.Some? ==> n.entry["source"] == Text(n.key.source.value))
  }

  /** A normalized record still tells its package's identity. */
  lemma {:induction false} RecordTellsIdentity(m: Node, n: Node, e: seq<Identity>, f: seq<Identity>)
    requires Consistent(m) && Consistent(n) && EntryOf(m, e).record == EntryOf(n, f).record
    ensures EntryOf(m, e) == EntryOf(n, f)
  {
    hide EdgesToml;
    var (r, s) := (EntryOf(m, e).record, EntryOf(n, f).record);
    assert r["name"] == Text(m.key.name) && s["name"] == Text(n.key.name);
    assert ("source" in r <==> m.key.source.Some?) && ("source" in s <==> n.key.source.Some?);
    if m.key.source.Some? {
      assert r["source"] == m.entry["source"] && s["source"] == n.entry["source"];
      assert r["version"] == m.entry["version"] && s["version"] == n.entry["version"];
    }
  }

  /** Normalized packages are equal exactly when they mean the same. */
  lemma {:induction false} EntryDecides(m: Node, n: Node, ks: seq<Key>, ls: seq<Key>)
    requires Edges(m.dependencies, ks).Ok? && Edges(n.dependencies, ls).Ok?
    ensures EntryOf(m, Edges(m.dependencies, ks).value) == EntryOf(n, Edges(n.dependencies, ls).value) <==>
            MeaningOf(m, ks) == MeaningOf(n, ls)
  {
    hide EdgesToml, Edges;
    var (e, f) := (Edges(m.dependencies, ks).value, Edges(n.dependencies, ls).value);
    EdgesTomlDecides(e, f);
    var (r, s) := (EntryOf(m, e).record, EntryOf(n, f).record);
    if r == s {
      assert r["dependencies"] == s["dependencies"];
      assert Fields(m) == r - {"dependencies"} && Fields(n) == s - {"dependencies"};
    }
  }

  lemma {:induction false} NodesAreConsistent(lock: Entries)
    requires Nodes(lock).Ok?
    ensures DistinctIdentities(Keys(Nodes(lock).value))
    ensures forall i :: 0 <= i < |Nodes(lock).value| ==> Consistent(Nodes(lock).value[i])
  {
    hide DependenciesOf;
  }

  /** Two locks have the same graph exactly when they agree outside the packages, have the same
      third-party packages with the same fields, the same local packages up to their versions,
      and the same resolved dependencies counted with multiplicity. */
  lemma {:induction false} GraphDecides(a: Entries, b: Entries)
    requires Graph(a).Ok? && Graph(b).Ok?
    ensures Resolved(Nodes(a).value, Keys(Nodes(a).value)) && Resolved(Nodes(b).value, Keys(Nodes(b).value))
    ensures Graph(a) == Graph(b) <==>
            a - {"package"} == b - {"package"} && Meanings(Nodes(a).value) == Meanings(Nodes(b).value)
  {
    hide Nodes, Keys, AllEntries, Resolved, DistinctIdentities, Meanings, Consistent, Sort;
    var (m, n) := (Nodes(a).value, Nodes(b).value);
    NodesAreConsistent(a);
    NodesAreConsistent(b);
    AllEntriesAre(m, Keys(m));
    AllEntriesAre(n, Keys(n));
    var (e, f) := (AllEntries(m, Keys(m)).value, AllEntries(n, Keys(n)).value);
    RecordsDecide(m, n, e, f);
    var (r, s) := (Records(Sort(e, EntryLeq)), Records(Sort(f, EntryLeq)));
    hide Records;
    var (ga, gb) := (Graph(a).value, Graph(b).value);
    assert ga["package"] == r && gb["package"] == s;
    assert ga - {"package"} == a - {"package"} && gb - {"package"} == b - {"package"};
    assert ga == gb <==> r == s && a - {"package"} == b - {"package"};
  }

  ghost predicate EntriesOf(nodes: seq<Node>, es: seq<Entry>) {
    && |es| == |nodes| && Resolved(nodes, Keys(nodes)) && DistinctIdentities(Keys(nodes))
    && (forall i :: 0 <= i < |nodes| ==> Consistent(nodes[i]))
    && (forall i :: 0 <= i < |nodes| ==> es[i] == EntryOf(nodes[i], Edges(nodes[i].dependencies, Keys(nodes)).value))
  }

  lemma {:induction false} RecordsDecide(m: seq<Node>, n: seq<Node>, e: seq<Entry>, f: seq<Entry>)
    requires EntriesOf(m, e) && EntriesOf(n, f)
    ensures Records(Sort(e, EntryLeq)) == Records(Sort(f, EntryLeq)) <==> Meanings(m) == Meanings(n)
  {
    hide Edges, EntryOf, Consistent, DistinctIdentities, Sort, Records, Meanings, Resolved;
    EntryLeqIsTotalPreorder();
    DistinctEntriesOf(m, e);
    DistinctEntriesOf(n, f);
    EntryLeqAntisymmetric(e);
    SortIsCanonical(e, f, EntryLeq);
    SortedRecordsDecide(m, n, e, f);
    MembersDecide(m, n, e, f);
    if Meanings(m) == Meanings(n) {
      SameMembersSameBag(e, f);
    } else if multiset(e) == multiset(f) {
      forall x ensures x in e <==> x in f { assert x in multiset(e) <==> x in multiset(f); }
    }
  }

  lemma {:induction false} DistinctEntriesOf(m: seq<Node>, e: seq<Entry>)
    requires EntriesOf(m, e)
    ensures DistinctEntries(e) && NoDuplicates(e)
  {
    hide Edges, Consistent, EdgesToml, Fields;
    forall i, j | 0 <= i < j < |e| ensures e[i].identity != e[j].identity {
      assert IdentityOf(Keys(m)[i]) != IdentityOf(Keys(m)[j]);
    }
  }

  lemma {:induction false} SortedRecordsDecide(m: seq<Node>, n: seq<Node>, e: seq<Entry>, f: seq<Entry>)
    requires EntriesOf(m, e) && EntriesOf(n, f)
    ensures Records(Sort(e, EntryLeq)) == Records(Sort(f, EntryLeq)) <==> Sort(e, EntryLeq) == Sort(f, EntryLeq)
  {
    hide Edges, EntryOf, Sort, EntryLeq, DistinctIdentities, Consistent;
    EntryLeqIsTotalPreorder();
    SortSorts(e, EntryLeq);
    SortSorts(f, EntryLeq);
    var (s, t) := (Sort(e, EntryLeq), Sort(f, EntryLeq));
    if Records(s) == Records(t) {
      var (u, v) := (Records(s).items, Records(t).items);
      assert |s| == |u| == |v| == |t|;
      forall i | 0 <= i < |s| ensures s[i] == t[i] {
        assert u[i] == Table(s[i].record) && v[i] == Table(t[i].record);
        assert s[i] in multiset(e) && t[i] in multiset(f);
        var j :| 0 <= j < |e| && e[j] == s[i];
        var k :| 0 <= k < |f| && f[k] == t[i];
        RecordTellsIdentity(m[j], n[k], Edges(m[j].dependencies, Keys(m)).value, Edges(n[k].dependencies, Keys(n)).value);
      }
      assert s == t;
    }
  }

  lemma {:induction false} MembersDecide(m: seq<Node>, n: seq<Node>, e: seq<Entry>, f: seq<Entry>)
    requires EntriesOf(m, e) && EntriesOf(n, f)
    ensures (forall x :: x in e <==> x in f) <==> Meanings(m) == Meanings(n)
  {
    hide Edges, EntryOf, Consistent, DistinctIdentities, MeaningOf, Resolved;
    if forall x :: x in e <==> x in f {
      MembersWithin(m, n, e, f);
      MembersWithin(n, m, f, e);
    }
    if Meanings(m) == Meanings(n) {
      MeaningsWithin(m, n, e, f);
      MeaningsWithin(n, m, f, e);
    }
  }

  lemma {:induction false} MembersWithin(m: seq<Node>, n: seq<Node>, e: seq<Entry>, f: seq<Entry>)
    requires EntriesOf(m, e) && EntriesOf(n, f) && forall x :: x in e ==> x in f
    ensures Meanings(m) <= Meanings(n)
  {
    hide Edges, EntryOf, DistinctIdentities, Consistent, MeaningOf;
    forall x | x in Meanings(m) ensures x in Meanings(n) {
      var i :| 0 <= i < |m| && x == MeaningOf(m[i], Keys(m));
      assert e[i] in f;
      var j :| 0 <= j < |f| && f[j] == e[i];
      EntryDecides(m[i], n[j], Keys(m), Keys(n));
    }
  }

  lemma {:induction false} MeaningsWithin(m: seq<Node>, n: seq<Node>, e: seq<Entry>, f: seq<Entry>)
    requires EntriesOf(m, e) && EntriesOf(n, f) && Meanings(m) <= Meanings(n)
    ensures forall x :: x in e ==> x in f
  {
    hide Edges, EntryOf, DistinctIdentities, Consistent, MeaningOf;
    forall x | x in e ensures x in f {
      var i :| 0 <= i < |e| && e[i] == x;
      assert MeaningOf(m[i], Keys(m)) in Meanings(n);
      var j :| 0 <= j < |n| && MeaningOf(n[j], Keys(n)) == MeaningOf(m[i], Keys(m));
      EntryDecides(m[i], n[j], Keys(m), Keys(n));
    }
  }
}
