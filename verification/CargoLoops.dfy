/** `_packages` and `graph` as they run: loops that fill a node list, two dictionaries and a record list. */
module CargoLoops {
  import opened Collections
  import opened Sorting
  import opened CargoReference
  import opened CargoGraph

  method ReadPackages(lock: Entries) returns (r: Result<seq<Node>>)
    ensures r == Nodes(lock)
  {
    if "package" !in lock || !lock["package"].List? || lock["package"].items == [] {
      return Err;
    }
    hide Readable, ReadNode, IdentityOf;
    var items := lock["package"].items;
    var nodes: seq<Node> := [];
    for i := 0 to |items|
      invariant |nodes| == i
      invariant forall k :: 0 <= k < i ==> Readable(items[k]) && nodes[k] == ReadNode(items[k])
    {
      if !Readable(items[i]) {
        return Err;
      }
      nodes := nodes + [ReadNode(items[i])];
    }
    assert nodes == seq(|items|, i requires 0 <= i < |items| => ReadNode(items[i]));
    var distinct := CheckIdentities(Keys(nodes));
    return if distinct then Ok(nodes) else Err;
  }

  /** The `seen` dictionary: no identity may come twice. */
  method CheckIdentities(ks: seq<Key>) returns (distinct: bool)
    ensures distinct == DistinctIdentities(ks)
  {
    hide IdentityOf;
    var seen: set<Identity> := {};
    for i := 0 to |ks|
      invariant forall x :: x in seen <==> exists k :: 0 <= k < i && IdentityOf(ks[k]) == x
      invariant forall j, k :: 0 <= j < k < i ==> IdentityOf(ks[j]) != IdentityOf(ks[k])
    {
      if IdentityOf(ks[i]) in seen {
        return false;
      }
      seen := seen + {IdentityOf(ks[i])};
    }
    return true;
  }

  /** `by_name`: the packages of each name, in the order of the lock. */
  ghost predicate Grouped(byName: map<string, seq<Key>>, ks: seq<Key>) {
    forall name :: (if name in byName then byName[name] else []) == Filter(ks, Named(name))
  }

  method GroupByName(ks: seq<Key>) returns (byName: map<string, seq<Key>>)
    ensures Grouped(byName, ks)
  {
    byName := map[];
    for i := 0 to |ks|
      invariant Grouped(byName, ks[..i])
    {
      ghost var was := byName;
      var name := ks[i].name;
      if name !in byName {
        byName := byName[name := []];
      }
      byName := byName[name := byName[name] + [ks[i]]];
      GroupedStep(was, byName, ks, i);
    }
    assert ks[..|ks|] == ks;
  }

  lemma {:induction false} GroupedStep(was: map<string, seq<Key>>, byName: map<string, seq<Key>>, ks: seq<Key>, i: nat)
    requires i < |ks| && Grouped(was, ks[..i])
    requires var name := ks[i].name; byName == was[name := (if name in was then was[name] else []) + [ks[i]]]
    ensures Grouped(byName, ks[..i + 1])
  {
    hide Filter;
    forall name ensures (if name in byName then byName[name] else []) == Filter(ks[..i + 1], Named(name)) {
      assert ks[..i + 1] == ks[..i] + [ks[i]];
      FilterAppend(ks[..i], ks[i], Named(name));
      assert (if name in was then was[name] else []) == Filter(ks[..i], Named(name));
    }
  }

  lemma {:induction false} Associate<T>(a: seq<T>, b: seq<T>, c: seq<T>)
    ensures a + (b + c) == a + b + c
  {
  }

  lemma {:induction false} FilterAppend<T>(s: seq<T>, x: T, p: T -> bool)
    ensures Filter(s + [x], p) == Filter(s, p) + if p(x) then [x] else []
  {
    if s == [] {
      assert s + [x] == [x];
    } else {
      var (first, last) := (if p(s[0]) then [s[0]] else [], if p(x) then [x] else []);
      assert (s + [x])[1..] == s[1..] + [x] && (s + [x])[0] == s[0];
      FilterAppend(s[1..], x, p);
      var rest := Filter(s[1..], p);
      assert Filter(s, p) == first + rest;
      assert Filter(s + [x], p) == first + (rest + last);
      hide Filter;
      Associate(first, rest, last);
    }
  }

  lemma {:induction false} EdgesAre(dependencies: seq<string>, ks: seq<Key>)
    ensures Edges(dependencies, ks).Ok? <==> forall i :: 0 <= i < |dependencies| ==> Resolve(dependencies[i], ks).Ok?
    ensures Edges(dependencies, ks).Ok? ==> forall i :: 0 <= i < |dependencies| ==>
              Resolve(dependencies[i], ks) == Ok(Edges(dependencies, ks).value[i])
  {
    hide Resolve;
    if dependencies != [] {
      EdgesAre(dependencies[1..], ks);
      assert forall i :: 1 <= i < |dependencies| ==> dependencies[i] == dependencies[1..][i - 1];
      assert forall i :: 0 <= i < |dependencies[1..]| ==> dependencies[1..][i] == dependencies[i + 1];
    }
  }

  method ResolveAll(dependencies: seq<string>, byName: map<string, seq<Key>>, ghost ks: seq<Key>) returns (r: Result<seq<Identity>>)
    requires Grouped(byName, ks)
    ensures r == Edges(dependencies, ks)
  {
    hide ParseReference, Candidates, Filter, Edges;
    EdgesAre(dependencies, ks);
    var edges: seq<Identity> := [];
    for i := 0 to |dependencies|
      invariant |edges| == i && forall k :: 0 <= k < i ==> Resolve(dependencies[k], ks) == Ok(edges[k])
    {
      var reference := ParseReference(dependencies[i]);
      if reference.None? {
        return Err;
      }
      var name := reference.value.name;
      var found := Candidates(reference.value, if name in byName then byName[name] else []);
      if |found| != 1 {
        return Err;
      }
      edges := edges + [IdentityOf(found[0])];
    }
    assert edges == Edges(dependencies, ks).value;
    return Ok(edges);
  }

  method BuildGraph(lock: Entries) returns (r: Result<Entries>)
    ensures r == Graph(lock)
  {
    hide Nodes, Keys, Edges, EntryOf, AllEntries, Grouped;
    var read := ReadPackages(lock);
    if read.Err? {
      return Err;
    }
    var nodes := read.value;
    var byName := GroupByName(Keys(nodes));
    AllEntriesAre(nodes, Keys(nodes));
    var entries: seq<Entry> := [];
    for i := 0 to |nodes|
      invariant |entries| == i
      invariant forall k :: 0 <= k < i ==> Edges(nodes[k].dependencies, Keys(nodes)).Ok?
      invariant forall k :: 0 <= k < i ==> entries[k] == EntryOf(nodes[k], Edges(nodes[k].dependencies, Keys(nodes)).value)
    {
      var edges := ResolveAll(nodes[i].dependencies, byName, Keys(nodes));
      if edges.Err? {
        return Err;
      }
      entries := entries + [EntryOf(nodes[i], edges.value)];
    }
    assert entries == AllEntries(nodes, Keys(nodes)).value;
    return Ok((lock - {"package"})["package" := Records(Sort(entries, EntryLeq))]);
  }
}
