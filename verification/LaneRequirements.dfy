/** Lanes that require other lanes: the closure over requirements, and the search for cycles. */
module LaneRequirements {
  import opened Collections

  datatype Lane = Lane(id: string, paths: seq<string>, also: seq<string>, prPaths: Option<seq<string>>, labels: seq<string>,
                       events: set<string>, gate: bool, opensecret: Option<string>, needs: seq<string>)

  /** Why a lane is selected. */
  datatype Why = Changed(path: string) | Unclassified(path: string) | Labelled(tag: string) | RequiredBy(id: string)

  type Selection = map<string, seq<Why>>

  type Table = map<string, Lane>

  /** Lanes by identifier; of two with the same one, the later. */
  function ById(lanes: seq<Lane>): (table: Table)
    ensures forall id :: id in table ==> table[id].id == id
  {
    if lanes == [] then map[] else ById(lanes[..|lanes| - 1])[lanes[|lanes| - 1].id := lanes[|lanes| - 1]]
  }

  /** What a name requires: nothing when no lane has it. */
  function Needs(table: Table, id: string): seq<string> {
    if id in table then table[id].needs else []
  }

  // ---------------------------------------------------------------- reachability

  ghost predicate IsPath(table: Table, p: seq<string>) {
    p != [] && forall i :: 0 <= i < |p| - 1 ==> p[i + 1] in Needs(table, p[i])
  }

  ghost predicate PathTo(table: Table, from: set<string>, p: seq<string>, y: string) {
    IsPath(table, p) && p[0] in from && p[|p| - 1] == y
  }

  /** `y` is one of `from`, or is required by one of them, at any remove. */
  ghost predicate Reaches(table: Table, from: set<string>, y: string) {
    exists p :: PathTo(table, from, p, y)
  }

  ghost predicate Closed(table: Table, s: set<string>) {
    forall x, y :: x in s && y in Needs(table, x) ==> y in s
  }

  lemma {:induction false} ReachesItself(table: Table, from: set<string>, y: string)
    requires y in from
    ensures Reaches(table, from, y)
  {
    assert PathTo(table, from, [y], y);
  }

  lemma {:induction false} ReachesNext(table: Table, from: set<string>, x: string, y: string)
    requires Reaches(table, from, x) && y in Needs(table, x)
    ensures Reaches(table, from, y)
  {
    var p :| PathTo(table, from, p, x);
    assert PathTo(table, from, p + [y], y);
  }

  lemma {:induction false} PathStaysInside(table: Table, s: set<string>, p: seq<string>)
    requires Closed(table, s) && IsPath(table, p) && p[0] in s
    ensures p[|p| - 1] in s
  {
    if |p| > 1 {
      var before := p[..|p| - 1];
      PathStaysInside(table, s, before);
      assert p[|p| - 2 + 1] in Needs(table, p[|p| - 2]);
    }
  }

  /** Everything reached is in every closed superset, and what is reached is itself closed: the least closed superset. */
  lemma {:induction false} ReachesIsLeastClosed(table: Table, from: set<string>, reached: set<string>)
    requires forall y :: y in reached <==> Reaches(table, from, y)
    ensures from <= reached && Closed(table, reached)
    ensures forall s :: from <= s && Closed(table, s) ==> reached <= s
  {
    forall y | y in from ensures y in reached {
      ReachesItself(table, from, y);
    }
    forall x, y | x in reached && y in Needs(table, x) ensures y in reached {
      ReachesNext(table, from, x, y);
    }
    forall s, y | from <= s && Closed(table, s) && y in reached ensures y in s {
      ReachedIsInside(table, from, s, y);
    }
  }

  lemma {:induction false} ReachedIsInside(table: Table, from: set<string>, s: set<string>, y: string)
    requires from <= s && Closed(table, s) && Reaches(table, from, y)
    ensures y in s
  {
    var p :| PathTo(table, from, p, y);
    PathStaysInside(table, s, p);
  }

  // ---------------------------------------------------------------- adding requirements

  /** The reasons a lane already has. */
  function Reasons(selected: Selection, id: string): seq<Why> {
    if id in selected then selected[id] else []
  }

  function Members(names: seq<string>): set<string> { set x | x in names }

  /** Everything that could ever be selected. */
  function Universe(table: Table, from: set<string>): (u: set<string>)
    ensures from <= u && Closed(table, u)
  {
    from + set x, y | x in table && y in table[x].needs :: y
  }

  lemma {:induction false} MembersAppend(s: seq<string>, x: string)
    ensures Members(s + [x]) == Members(s) + {x}
  {
  }

  /** The selection with one more reason for `id`. */
  function Append(selected: Selection, id: string, why: Why): Selection {
    selected[id := Reasons(selected, id) + [why]]
  }

  /** The reasons of every lane grew by nothing but `RequiredBy(source)`, and of exactly the lanes in `needs`. */
  ghost predicate Extends(before: Selection, after: Selection, needs: seq<string>, source: string) {
    forall y :: y in after ==>
      && Reasons(before, y) <= after[y]
      && (forall i :: |Reasons(before, y)| <= i < |after[y]| ==> after[y][i] == RequiredBy(source))
      && (y in needs <==> |after[y]| > |Reasons(before, y)|)
  }

  /** One lane's requirements: new names are selected and left pending, and each gets a reason. */
  method AddRequired(needs: seq<string>, source: string, selected: Selection, pending: seq<string>)
    returns (r: Selection, left: seq<string>)
    ensures r.Keys == selected.Keys + Members(needs) && Extends(selected, r, needs, source)
    ensures Members(left) == Members(pending) + (Members(needs) - selected.Keys)
    ensures |left| == |pending| || r.Keys > selected.Keys
  {
    hide Members, Append, Extends;
    r, left := selected, pending;
    NothingAdded(selected, source);
    for i := 0 to |needs|
      invariant r.Keys == selected.Keys + Members(needs[..i]) && Extends(selected, r, needs[..i], source)
      invariant Members(left) == Members(pending) + (Members(needs[..i]) - selected.Keys)
      invariant |left| == |pending| || r.Keys > selected.Keys
    {
      var name := needs[i];
      assert needs[..i + 1] == needs[..i] + [name];
      MembersAppend(needs[..i], name);
      if name !in r {
        MembersAppend(left, name);
        left := left + [name];
      }
      OneAdded(selected, r, needs[..i], name, source);
      r := Append(r, name, RequiredBy(source));
    }
    assert needs[..|needs|] == needs;
  }

  lemma {:induction false} NothingAdded(selected: Selection, source: string)
    ensures Extends(selected, selected, [], source) && Members([]) == {}
  {
  }

  lemma {:induction false} OneAdded(before: Selection, after: Selection, needs: seq<string>, name: string, source: string)
    requires Extends(before, after, needs, source) && before.Keys <= after.Keys
    ensures Append(after, name, RequiredBy(source)).Keys == after.Keys + {name}
    ensures Extends(before, Append(after, name, RequiredBy(source)), needs + [name], source)
  {
    var more := Append(after, name, RequiredBy(source));
    forall y | y in more
      ensures && Reasons(before, y) <= more[y]
              && (forall i :: |Reasons(before, y)| <= i < |more[y]| ==> more[y][i] == RequiredBy(source))
              && (y in needs + [name] <==> |more[y]| > |Reasons(before, y)|)
    {
      if y in after {
      }
    }
  }

  /** Every reason that was not there at the start names a selected lane that requires `y`. */
  ghost predicate Justified(table: Table, start: Selection, r: Selection) {
    && start.Keys <= r.Keys
    && forall y :: y in r ==>
      && Reasons(start, y) <= r[y]
      && forall i :: |Reasons(start, y)| <= i < |r[y]| ==> r[y][i].RequiredBy? && r[y][i].id in r && y in Needs(table, r[y][i].id)
  }

  /** The requirements of every selected lane that is no longer pending are selected, with the reason. */
  ghost predicate Handled(table: Table, r: Selection, pending: seq<string>) {
    forall x, y :: x in r && x !in pending && y in Needs(table, x) ==> y in r && RequiredBy(x) in r[y]
  }

  ghost predicate AllReached(table: Table, from: set<string>, ids: set<string>) {
    forall y :: y in ids ==> Reaches(table, from, y)
  }

  /** Part-way: some selected lanes are pending, the others are done with. */
  ghost predicate Underway(table: Table, start: Selection, r: Selection, pending: seq<string>) {
    && Members(pending) <= r.Keys <= Universe(table, start.Keys)
    && AllReached(table, start.Keys, r.Keys) && Justified(table, start, r) && Handled(table, r, pending)
  }

  method WithRequirements(lanes: seq<Lane>, selected: Selection) returns (r: Selection)
    ensures forall y :: y in r <==> Reaches(ById(lanes), selected.Keys, y)
    ensures Justified(ById(lanes), selected, r) && Handled(ById(lanes), r, [])
  {
    hide Reaches, Justified, Handled, Universe, Members, Extends, Underway;
    var table := ById(lanes);
    hide ById;
    var pending := InSomeOrder(selected.Keys);
    r := selected;
    Starting(table, selected, pending);
    while pending != []
      invariant Underway(table, selected, r, pending)
      decreases |Universe(table, selected.Keys) - r.Keys|, |pending|
    {
      var (name, rest) := (pending[|pending| - 1], pending[..|pending| - 1]);
      ghost var before := r;
      RestAndLast(pending);
      if name in table {
        r, pending := AddRequired(table[name].needs, table[name].id, r, rest);
      } else {
        pending := rest;
        NothingAdded(before, name);
      }
      Advance(table, selected, before, r, rest, pending, name);
    }
    Finish(table, selected, r);
  }

  method InSomeOrder(ids: set<string>) returns (s: seq<string>)
    ensures Members(s) == ids
  {
    hide Members;
    s := [];
    var left := ids;
    NothingAdded(map[], "");
    while left != {}
      invariant left <= ids && Members(s) == ids - left
    {
      var id := Pick(left);
      MembersAppend(s, id);
      s, left := s + [id], left - {id};
    }
  }

  lemma {:induction false} Starting(table: Table, selected: Selection, pending: seq<string>)
    requires Members(pending) == selected.Keys
    ensures Underway(table, selected, selected, pending)
  {
    forall y | y in selected ensures Reaches(table, selected.Keys, y) {
      ReachesItself(table, selected.Keys, y);
    }
    assert forall x :: x in selected ==> x in Members(pending);
  }

  lemma {:induction false} UniverseHolds(table: Table, from: set<string>, name: string)
    ensures Members(Needs(table, name)) <= Universe(table, from)
  {
    assert forall y :: y in Needs(table, name) ==> name in table && y in table[name].needs;
  }

  lemma {:induction false} Shrinks(a: set<string>, b: set<string>)
    requires b <= a
    ensures |b| <= |a| && (b < a ==> |b| < |a|)
  {
    assert a == b + (a - b);
    assert b !! a - b;
    assert |a| == |b| + |a - b|;
    if b < a {
      assert a - b != {};
    }
  }

  /** Handling one pending name keeps what the loop maintains, and gets it closer to the end. */
  lemma {:induction false} Advance(table: Table, start: Selection, before: Selection, after: Selection, rest: seq<string>, left: seq<string>, name: string)
    requires Underway(table, start, before, rest + [name])
    requires Extends(before, after, Needs(table, name), name) && after.Keys == before.Keys + Members(Needs(table, name))
    requires Members(left) == Members(rest) + (Members(Needs(table, name)) - before.Keys)
    ensures Underway(table, start, after, left)
    ensures var u := Universe(table, start.Keys);
      |u - after.Keys| <= |u - before.Keys| && (after.Keys > before.Keys ==> |u - after.Keys| < |u - before.Keys|)
  {
    hide Reaches, Universe, Members, Justified, Handled, Extends;
    MembersAppend(rest, name);
    assert name in Members(rest + [name]);
    forall y | y in after ensures Reaches(table, start.Keys, y) {
      if y !in before {
        assert y in Needs(table, name) by { InMembers(Needs(table, name), y); }
        ReachesNext(table, start.Keys, name, y);
      }
    }
    AdvanceJustified(table, start, before, after, name);
    AdvanceHandled(table, before, after, rest, left, name);
    UniverseHolds(table, start.Keys, name);
    Shrinks(Universe(table, start.Keys) - before.Keys, Universe(table, start.Keys) - after.Keys);
  }

  lemma {:induction false} RestAndLast(s: seq<string>)
    requires s != []
    ensures s == s[..|s| - 1] + [s[|s| - 1]]
  {
  }

  lemma {:induction false} InMembers(s: seq<string>, x: string)
    ensures x in s <==> x in Members(s)
  {
  }

  lemma {:induction false} AdvanceJustified(table: Table, start: Selection, before: Selection, after: Selection, name: string)
    requires Justified(table, start, before) && name in before && Extends(before, after, Needs(table, name), name)
    requires after.Keys == before.Keys + Members(Needs(table, name))
    ensures Justified(table, start, after)
  {
    forall y | y in after
      ensures Reasons(start, y) <= after[y]
      ensures forall i :: |Reasons(start, y)| <= i < |after[y]| ==>
                after[y][i].RequiredBy? && after[y][i].id in after && y in Needs(table, after[y][i].id)
    {
      assert Reasons(start, y) <= Reasons(before, y) <= after[y];
      forall i | |Reasons(start, y)| <= i < |after[y]|
        ensures after[y][i].RequiredBy? && after[y][i].id in after && y in Needs(table, after[y][i].id)
      {
        if i < |Reasons(before, y)| {
          assert after[y][i] == before[y][i];
        } else {
          assert after[y][i] == RequiredBy(name);
        }
      }
    }
  }

  lemma {:induction false} AdvanceHandled(table: Table, before: Selection, after: Selection, rest: seq<string>, left: seq<string>, name: string)
    requires Handled(table, before, rest + [name]) && name in before && Extends(before, after, Needs(table, name), name)
    requires after.Keys == before.Keys + Members(Needs(table, name))
    requires Members(left) == Members(rest) + (Members(Needs(table, name)) - before.Keys)
    ensures Handled(table, after, left)
  {
    forall x, y | x in after && x !in left && y in Needs(table, x) ensures y in after && RequiredBy(x) in after[y] {
      assert x !in Members(left);
      assert x in before && x !in rest;
      if x == name {
        assert y in after;
        assert after[y][|Reasons(before, y)|] == RequiredBy(name);
      } else {
        assert x !in rest + [name];
        assert RequiredBy(x) in before[y];
        assert Reasons(before, y) <= after[y];
        assert forall w :: w in before[y] ==> w in after[y];
      }
    }
  }

  lemma {:induction false} Finish(table: Table, start: Selection, r: Selection)
    requires Underway(table, start, r, [])
    ensures forall y :: y in r <==> Reaches(table, start.Keys, y)
    ensures Justified(table, start, r) && Handled(table, r, [])
  {
    hide Reaches;
    assert Closed(table, r.Keys);
    forall y | Reaches(table, start.Keys, y) ensures y in r {
      ReachedIsInside(table, start.Keys, r.Keys, y);
    }
  }

  // ---------------------------------------------------------------- cycles

  /** A lane leads back to itself. */
  ghost predicate Cyclic(table: Table, lane: Lane) {
    Reaches(table, Members(lane.needs), lane.id)
  }

  /** Part-way through the search: everything on the stack is reached, and what was seen is expanded. */
  ghost predicate Searching(table: Table, lane: Lane, seen: set<string>, stack: seq<string>) {
    && seen <= table.Keys && lane.id !in seen
    && AllReached(table, Members(lane.needs), Members(stack))
    && (forall x :: x in lane.needs ==> x in stack || x in seen || (x !in table && x != lane.id))
    && (forall x, y :: x in seen && y in Needs(table, x) ==> y in stack || y in seen || (y !in table && y != lane.id))
  }

  method LeadsToItself(lanes: seq<Lane>, lane: Lane) returns (cyclic: bool)
    ensures cyclic <==> Cyclic(ById(lanes), lane)
  {
    var table := ById(lanes);
    hide ById, Members, Searching, Cyclic;
    var seen: set<string>, stack := {}, lane.needs;
    StartSearch(table, lane);
    while stack != []
      invariant Searching(table, lane, seen, stack)
      decreases |table.Keys - seen|, |stack|
    {
      var (name, rest) := (stack[|stack| - 1], stack[..|stack| - 1]);
      RestAndLast(stack);
      if name == lane.id {
        Found(table, lane, seen, stack);
        return true;
      }
      if name !in seen && name in table {
        Expand(table, lane, seen, rest, name);
        seen := seen + {name};
        stack := rest + table[name].needs;
      } else {
        SkipOver(table, lane, seen, rest, name);
        stack := rest;
      }
    }
    NotFound(table, lane, seen);
    return false;
  }

  lemma {:induction false} StartSearch(table: Table, lane: Lane)
    ensures Searching(table, lane, {}, lane.needs)
  {
    forall y | y in Members(lane.needs) ensures Reaches(table, Members(lane.needs), y) {
      ReachesItself(table, Members(lane.needs), y);
    }
  }

  lemma {:induction false} Found(table: Table, lane: Lane, seen: set<string>, stack: seq<string>)
    requires Searching(table, lane, seen, stack) && lane.id in stack
    ensures Cyclic(table, lane)
  {
    assert lane.id in Members(stack);
  }

  lemma {:induction false} Expand(table: Table, lane: Lane, seen: set<string>, rest: seq<string>, name: string)
    requires Searching(table, lane, seen, rest + [name]) && name != lane.id && name !in seen && name in table
    ensures Searching(table, lane, seen + {name}, rest + table[name].needs)
    ensures |table.Keys - (seen + {name})| < |table.Keys - seen|
  {
    hide Reaches;
    var (stack, more) := (rest + [name], rest + table[name].needs);
    Shrinks(table.Keys - seen, table.Keys - (seen + {name}));
    assert name in Members(stack);
    forall y | y in Members(more) ensures Reaches(table, Members(lane.needs), y) {
      if y in rest {
        assert y in Members(stack);
      } else {
        ReachesNext(table, Members(lane.needs), name, y);
      }
    }
    assert forall x :: x in stack ==> x in more || x == name;
  }

  lemma {:induction false} SkipOver(table: Table, lane: Lane, seen: set<string>, rest: seq<string>, name: string)
    requires Searching(table, lane, seen, rest + [name]) && name != lane.id && (name in seen || name !in table)
    ensures Searching(table, lane, seen, rest)
  {
    hide Reaches;
    assert forall x :: x in rest + [name] <==> x in rest || x == name;
    assert Members(rest) <= Members(rest + [name]);
  }

  lemma {:induction false} NotFound(table: Table, lane: Lane, seen: set<string>)
    requires Searching(table, lane, seen, [])
    ensures !Cyclic(table, lane)
  {
    hide Reaches;
    var unknown := Universe(table, Members(lane.needs)) - table.Keys - {lane.id};
    var all := seen + unknown;
    forall y | y in Members(lane.needs) ensures y in all {
    }
    forall x, y | x in all && y in Needs(table, x) ensures y in all {
      assert x in table;
      assert y in Universe(table, Members(lane.needs));
    }
    if Cyclic(table, lane) {
      ReachedIsInside(table, Members(lane.needs), all, lane.id);
    }
  }
}
