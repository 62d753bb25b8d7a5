/** Which lanes a change selects. */
module LaneSelection {
  import opened Collections
  import opened LaneRequirements
  import opened Strings

  /** The lane table and the selectors that are given: glob matching and the change detector of the enclave service. */
  datatype Rules = Rules(lanes: seq<Lane>, infra: seq<string>, opensecret: seq<string>, inert: seq<string>, prEvents: set<string>,
                         matches: (string, seq<string>) -> bool, checks: string -> set<string>)

  const EIF := "os-eif"
  const APPROVALS := "pcr_approvals"

  function LaneGlobs(rules: Rules, lane: Lane, event: Option<string>): seq<string> {
    if event.Some? && event.value in rules.prEvents && lane.prPaths.Some? then lane.prPaths.value
    else lane.paths + lane.also + (if lane.prPaths.Some? then lane.prPaths.value else [])
  }

  predicate Malformed(path: string) { path == "" || path[0] == '/' || ".." in Split(path, '/') }

  predicate Inert(rules: Rules, path: string) { !Malformed(path) && rules.matches(path, rules.inert) }

  predicate Classified(rules: Rules, path: string) {
    && !Malformed(path)
    && (rules.matches(path, rules.infra + rules.opensecret)
        || exists lane :: lane in rules.lanes && rules.matches(path, LaneGlobs(rules, lane, None)))
  }

  predicate Checked(rules: Rules, lane: Lane, path: string) {
    lane.opensecret.Some? && lane.opensecret.value in rules.checks(path)
  }

  /** One changed path selects one lane. */
  predicate Picks(rules: Rules, event: string, lane: Lane, path: string) {
    if Inert(rules, path) then Checked(rules, lane, path)
    else if !Classified(rules, path) then true
    else (rules.matches(path, rules.infra) && lane.gate) || Checked(rules, lane, path)
         || rules.matches(path, LaneGlobs(rules, lane, Some(event)))
  }

  predicate Approvals(rules: Rules, paths: seq<string>) { exists path :: path in paths && APPROVALS in rules.checks(path) }

  predicate Labels(lane: Lane, labels: seq<string>) { exists l :: l in labels && l in lane.labels }

  predicate PicksAny(rules: Rules, event: string, lane: Lane, paths: seq<string>) {
    exists path :: path in paths && Picks(rules, event, lane, path)
  }

  /** The lanes of the event that some path or label selects. */
  function Picked(rules: Rules, event: string, paths: seq<string>, labels: seq<string>): set<string> {
    set lane | lane in rules.lanes && event in lane.events && (PicksAny(rules, event, lane, paths) || Labels(lane, labels)) :: lane.id
  }

  /** Edited approvals are compared elsewhere instead of building the image. */
  function Chosen(rules: Rules, event: string, paths: seq<string>, labels: seq<string>): set<string> {
    Picked(rules, event, paths, labels) - (if Approvals(rules, paths) then {EIF} else {})
  }

  ghost predicate Selects(rules: Rules, event: string, paths: seq<string>, labels: seq<string>, id: string) {
    Reaches(ById(rules.lanes), Chosen(rules, event, paths, labels), id)
  }

  // ---------------------------------------------------------------- as it runs

  method Active(lanes: seq<Lane>, event: string) returns (r: seq<Lane>)
    ensures forall lane :: lane in r <==> lane in lanes && event in lane.events
  {
    r := [];
    for i := 0 to |lanes|
      invariant forall lane :: lane in r <==> lane in lanes[..i] && event in lane.events
    {
      if event in lanes[i].events {
        r := r + [lanes[i]];
      }
    }
  }

  /** Give each lane that `test` holds of one more reason. */
  method AddLanes(lanes: seq<Lane>, test: Lane -> bool, why: Why, chosen: Selection) returns (r: Selection)
    ensures r.Keys == chosen.Keys + Passing(lanes, test)
  {
    hide Append;
    r := chosen;
    for i := 0 to |lanes|
      invariant r.Keys == chosen.Keys + Passing(lanes[..i], test)
    {
      PassingStep(lanes, test, i);
      if test(lanes[i]) {
        AppendKeys(r, lanes[i].id, why);
        r := Append(r, lanes[i].id, why);
      }
    }
    assert lanes[..|lanes|] == lanes;
  }

  function Passing(lanes: seq<Lane>, test: Lane -> bool): set<string> {
    set lane | lane in lanes && test(lane) :: lane.id
  }

  lemma {:induction false} PassingStep(lanes: seq<Lane>, test: Lane -> bool, i: nat)
    requires i < |lanes|
    ensures Passing(lanes[..i + 1], test) == Passing(lanes[..i], test) + if test(lanes[i]) then {lanes[i].id} else {}
  {
    assert forall lane :: lane in lanes[..i + 1] <==> lane in lanes[..i] || lane == lanes[i];
  }

  lemma {:induction false} AppendKeys(selected: Selection, id: string, why: Why)
    ensures Append(selected, id, why).Keys == selected.Keys + {id}
  {
  }

  /** The lanes of the event that one of the paths selects. */
  function PathIds(rules: Rules, lanes: seq<Lane>, event: string, paths: seq<string>): set<string> {
    set lane | lane in lanes && PicksAny(rules, event, lane, paths) :: lane.id
  }

  function LabelIds(lanes: seq<Lane>, labels: seq<string>): set<string> {
    set lane | lane in lanes && Labels(lane, labels) :: lane.id
  }

  method ChooseByPaths(rules: Rules, lanes: seq<Lane>, event: string, paths: seq<string>) returns (chosen: Selection, approvals: bool)
    ensures chosen.Keys == PathIds(rules, lanes, event, paths) && approvals == Approvals(rules, paths)
  {
    hide Inert, Classified, Checked;
    chosen, approvals := map[], false;
    for i := 0 to |paths|
      invariant chosen.Keys == PathIds(rules, lanes, event, paths[..i]) && approvals == Approvals(rules, paths[..i])
    {
      var path := paths[i];
      var checks := rules.checks(path);
      PathIdsStep(rules, lanes, event, paths, i);
      approvals := approvals || APPROVALS in checks;
      chosen := ChooseByPath(rules, lanes, event, path, chosen);
    }
    assert paths[..|paths|] == paths;
  }

  function PickTest(rules: Rules, event: string, path: string): Lane -> bool { (lane: Lane) => Picks(rules, event, lane, path) }

  method ChooseByPath(rules: Rules, lanes: seq<Lane>, event: string, path: string, before: Selection) returns (chosen: Selection)
    ensures chosen.Keys == before.Keys + Passing(lanes, PickTest(rules, event, path))
  {
    hide Inert, Classified, Checked;
    if Inert(rules, path) {
      chosen := AddLanes(lanes, lane => Checked(rules, lane, path), Changed(path), before);
      return;
    }
    if !Classified(rules, path) {
      chosen := AddLanes(lanes, lane => true, Unclassified(path), before);
      return;
    }
    var infra := rules.matches(path, rules.infra);
    chosen := AddLanes(lanes, (lane: Lane) => (infra && lane.gate) || Checked(rules, lane, path)
                                      || rules.matches(path, LaneGlobs(rules, lane, Some(event))), Changed(path), before);
  }

  lemma {:induction false} PathIdsStep(rules: Rules, lanes: seq<Lane>, event: string, paths: seq<string>, i: nat)
    requires i < |paths|
    ensures PathIds(rules, lanes, event, paths[..i + 1])
         == PathIds(rules, lanes, event, paths[..i]) + Passing(lanes, PickTest(rules, event, paths[i]))
    ensures Approvals(rules, paths[..i + 1]) <==> Approvals(rules, paths[..i]) || APPROVALS in rules.checks(paths[i])
  {
    hide Picks;
    assert paths[..i + 1] == paths[..i] + [paths[i]];
    assert forall p :: p in paths[..i + 1] <==> p in paths[..i] || p == paths[i];
  }

  method ChooseByLabels(lanes: seq<Lane>, labels: seq<string>, before: Selection) returns (chosen: Selection)
    ensures chosen.Keys == before.Keys + LabelIds(lanes, labels)
  {
    chosen := before;
    for i := 0 to |labels|
      invariant chosen.Keys == before.Keys + LabelIds(lanes, labels[..i])
    {
      LabelIdsStep(lanes, labels, i);
      chosen := AddLanes(lanes, LabelTest(labels[i]), Labelled(labels[i]), chosen);
    }
    assert labels[..|labels|] == labels;
  }

  function LabelTest(l: string): Lane -> bool { (lane: Lane) => l in lane.labels }

  lemma {:induction false} LabelIdsStep(lanes: seq<Lane>, labels: seq<string>, i: nat)
    requires i < |labels|
    ensures LabelIds(lanes, labels[..i + 1]) == LabelIds(lanes, labels[..i]) + Passing(lanes, LabelTest(labels[i]))
  {
    assert labels[..i + 1] == labels[..i] + [labels[i]];
    assert forall l :: l in labels[..i + 1] <==> l in labels[..i] || l == labels[i];
  }

  method Select(rules: Rules, event: string, paths: seq<string>, labels: seq<string>) returns (r: Selection)
    ensures forall id :: id in r <==> Selects(rules, event, paths, labels, id)
  {
    hide Picks, Reaches;
    var lanes := Active(rules.lanes, event);
    var chosen, approvals := ChooseByPaths(rules, lanes, event, paths);
    chosen := ChooseByLabels(lanes, labels, chosen);
    assert chosen.Keys == Picked(rules, event, paths, labels) by { ByPathOrLabel(rules, lanes, event, paths, labels); }
    if approvals {
      chosen := chosen - {EIF};
    }
    assert chosen.Keys == Chosen(rules, event, paths, labels);
    r := WithRequirements(rules.lanes, chosen);
  }

  lemma {:induction false} ByPathOrLabel(rules: Rules, lanes: seq<Lane>, event: string, paths: seq<string>, labels: seq<string>)
    requires forall lane :: lane in lanes <==> lane in rules.lanes && event in lane.events
    ensures PathIds(rules, lanes, event, paths) + LabelIds(lanes, labels) == Picked(rules, event, paths, labels)
  {
    hide Picks;
  }

  // ---------------------------------------------------------------- what a path is sure to select

  /** The image build is left out when the approvals were edited. */
  predicate LeftOut(rules: Rules, paths: seq<string>, id: string) { id == EIF && Approvals(rules, paths) }

  lemma {:induction false} PickedIsSelected(rules: Rules, event: string, paths: seq<string>, labels: seq<string>, lane: Lane, path: string)
    requires lane in rules.lanes && event in lane.events && path in paths && Picks(rules, event, lane, path)
    ensures Selects(rules, event, paths, labels, lane.id) || LeftOut(rules, paths, lane.id)
  {
    hide Picks, ById, Reaches;
    assert PicksAny(rules, event, lane, paths);
    if !LeftOut(rules, paths, lane.id) {
      ReachesItself(ById(rules.lanes), Chosen(rules, event, paths, labels), lane.id);
    }
  }

  /** No selector knows the path, or it is not a path inside the repository. */
  predicate Unknown(rules: Rules, path: string) {
    || path == "" || path[0] == '/' || ".." in Split(path, '/')
    || (&& !rules.matches(path, rules.inert) && !rules.matches(path, rules.infra + rules.opensecret)
        && forall lane :: lane in rules.lanes ==> !rules.matches(path, lane.paths + lane.also + Value(lane.prPaths)))
  }

  function Value(globs: Option<seq<string>>): seq<string> { if globs.Some? then globs.value else [] }

  /** One path that nothing knows selects every lane of the event. */
  lemma {:induction false} UnknownSelectsAll(rules: Rules, event: string, paths: seq<string>, labels: seq<string>, lane: Lane, path: string)
    requires path in paths && Unknown(rules, path) && lane in rules.lanes && event in lane.events
    ensures Selects(rules, event, paths, labels, lane.id) || LeftOut(rules, paths, lane.id)
  {
    hide Selects, Split, Approvals;
    assert Picks(rules, event, lane, path);
    PickedIsSelected(rules, event, paths, labels, lane, path);
  }

  /** Paths that change nothing select nothing, unless the enclave service's own detector names a lane. */
  lemma {:induction false} InertSelectsNothing(rules: Rules, event: string, paths: seq<string>, id: string)
    requires forall p :: p in paths ==> Inert(rules, p)
    requires forall p, lane :: p in paths && lane in rules.lanes ==> !Checked(rules, lane, p)
    ensures !Selects(rules, event, paths, [], id)
  {
    hide Inert, Checked, ById;
    assert Picked(rules, event, paths, []) == {};
  }

  /** Some glob matches the path, and none after an exclamation mark does. */
  ghost predicate Hit(one: (string, string) -> bool, path: string, globs: set<string>) {
    && (exists g :: g in globs && !StartsWith(g, "!") && one(path, g))
    && (forall g :: g in globs && StartsWith(g, "!") ==> !one(path, g[1..]))
  }

  ghost predicate MatchesBy(rules: Rules, one: (string, string) -> bool) {
    forall path, globs :: rules.matches(path, globs) <==> Hit(one, path, Of(globs))
  }

  function Of(globs: seq<string>): set<string> { set g | g in globs }

  /** The globs by which a lane watches paths: on a pull request its list for that, when there is one, and otherwise all. */
  function Watched(rules: Rules, lane: Lane, event: string): set<string> {
    if event in rules.prEvents && lane.prPaths.Some? then Of(lane.prPaths.value)
    else Of(lane.paths) + Of(lane.also) + Of(Value(lane.prPaths))
  }

  /** Why a path by itself chooses a lane of the event: the enclave service's detector names it; or else the path is not
      inert, and nothing knows it, or it is the planner's own and the lane a gate, or the lane watches it. */
  ghost predicate Concerns(rules: Rules, one: (string, string) -> bool, event: string, lane: Lane, path: string) {
    || (lane.opensecret.Some? && lane.opensecret.value in rules.checks(path))
    || Unknown(rules, path)
    || (&& !Hit(one, path, Of(rules.inert))
        && ((Hit(one, path, Of(rules.infra)) && lane.gate) || Hit(one, path, Watched(rules, lane, event))))
  }

  lemma {:induction false} PicksIff(rules: Rules, one: (string, string) -> bool, event: string, lane: Lane, path: string)
    requires MatchesBy(rules, one) && lane in rules.lanes
    ensures Picks(rules, event, lane, path) <==> Concerns(rules, one, event, lane, path)
  {
    hide Hit, Split;
    assert Of(LaneGlobs(rules, lane, Some(event))) == Watched(rules, lane, event);
    assert forall other :: other in rules.lanes ==> LaneGlobs(rules, other, None) == other.paths + other.also + Value(other.prPaths);
    assert rules.matches(path, rules.inert) <==> Hit(one, path, Of(rules.inert));
    assert rules.matches(path, rules.infra) <==> Hit(one, path, Of(rules.infra));
    assert rules.matches(path, LaneGlobs(rules, lane, Some(event))) <==> Hit(one, path, Watched(rules, lane, event));
  }

  /** A change selects exactly what the lanes require, transitively, that a path concerns or a label names, the image build left
      out when the approvals were edited. */
  lemma {:induction false} SelectsIff(rules: Rules, one: (string, string) -> bool, event: string, paths: seq<string>, labels: seq<string>, id: string)
    requires MatchesBy(rules, one)
    ensures Selects(rules, event, paths, labels, id) <==>
            Reaches(ById(rules.lanes),
                    (set lane | lane in rules.lanes && event in lane.events && !LeftOut(rules, paths, lane.id)
                                && ((exists p :: p in paths && Concerns(rules, one, event, lane, p)) || Labels(lane, labels)) :: lane.id), id)
  {
    hide Reaches, Concerns, Picks, ById, MatchesBy;
    forall lane, p | lane in rules.lanes ensures Picks(rules, event, lane, p) <==> Concerns(rules, one, event, lane, p) {
      PicksIff(rules, one, event, lane, p);
    }
    var chosen := set lane | lane in rules.lanes && event in lane.events && !LeftOut(rules, paths, lane.id)
                             && ((exists p :: p in paths && Concerns(rules, one, event, lane, p)) || Labels(lane, labels)) :: lane.id;
    assert chosen == Chosen(rules, event, paths, labels);
  }

  /** Two dots stand between slashes. */
  ghost predicate HasDots(s: string) { exists a, b :: s == a + "/../" + b }

  /** A path is refused exactly when it is empty or absolute or, with a slash on either side, has two dots between slashes. */
  lemma {:induction false} MalformedIff(path: string)
    ensures Malformed(path) <==> path == "" || path[0] == '/' || HasDots("/" + path + "/")
  {
    hide HasDots, Split;
    DotsIff(path);
  }

  lemma {:induction false} DotsIff(s: string)
    ensures ".." in Split(s, '/') <==> HasDots("/" + s + "/")
    decreases |s|
  {
    hide HasDots;
    var i := IndexOf(s, '/');
    var first := s[..i];
    if i == |s| {
      assert first == s && '/' !in s;
      SplitWhole(s, '/');
      DotsWhole(s);
    } else {
      var rest := s[i + 1..];
      assert s == first + ['/'] + rest && '/' !in first;
      SplitFirst(first, '/', rest);
      DotsIff(rest);
      DotsFirst(first, rest);
      hide Split;
      assert "/" + s + "/" == "/" + first + ("/" + rest + "/");
    }
  }

  lemma {:induction false} DotsWhole(s: string)
    requires '/' !in s
    ensures HasDots("/" + s + "/") <==> s == ".."
  {
    var whole := "/" + s + "/";
    if s == ".." {
      assert whole == "" + "/../" + "";
    }
    if HasDots(whole) {
      var a, b :| whole == a + "/../" + b;
      assert whole[|a|] == '/' && whole[|a| + 3] == '/';
      assert forall k :: 1 <= k <= |s| ==> whole[k] == s[k - 1];
      assert |a| == 0 && |s| == 2;
      assert whole[1] == '.' && whole[2] == '.';
    }
  }

  lemma {:induction false} DotsFirst(first: string, rest: string)
    requires '/' !in first
    ensures HasDots("/" + first + ("/" + rest + "/")) <==> first == ".." || HasDots("/" + rest + "/")
  {
    var (tail, n) := ("/" + rest + "/", 1 + |first|);
    var whole := "/" + first + tail;
    if first == ".." {
      assert whole == "" + "/../" + (rest + "/");
    }
    if HasDots(tail) {
      var a, b :| tail == a + "/../" + b;
      assert whole == ("/" + first + a) + "/../" + b;
    }
    if HasDots(whole) {
      var a, b :| whole == a + "/../" + b;
      DotsLater(first, tail, a, b);
    }
  }

  lemma {:induction false} DotsLater(first: string, tail: string, a: string, b: string)
    requires '/' !in first && tail != [] && tail[0] == '/' && "/" + first + tail == a + "/../" + b
    ensures first == ".." || HasDots(tail)
  {
    var (whole, n) := ("/" + first + tail, 1 + |first|);
    assert whole[|a|] == '/' && whole[|a| + 1] == '.' && whole[|a| + 2] == '.' && whole[|a| + 3] == '/';
    assert forall k :: 1 <= k < n ==> whole[k] == first[k - 1];
    assert whole[n] == '/';
    if |a| < n {
      assert |a| == 0 && n == 3;
      assert first[0] == '.' && first[1] == '.';
    } else {
      assert whole[n..] == tail;
      assert tail == a[n..] + "/../" + b;
    }
  }

  // ---------------------------------------------------------------- more changes never deselect, but for one lane

  /** Every path and label of one change is in the other. */
  predicate Within(paths: seq<string>, more: seq<string>) { forall p :: p in paths ==> p in more }

  lemma {:induction false} PickedGrows(rules: Rules, event: string, paths: seq<string>, more: seq<string>, labels: seq<string>)
    requires Within(paths, more)
    ensures Picked(rules, event, paths, labels) <= Picked(rules, event, more, labels)
  {
    hide Picks;
  }

  /** Further paths drop the image build because they edit the approvals. */
  predicate Drops(rules: Rules, event: string, paths: seq<string>, more: seq<string>, labels: seq<string>) {
    EIF in Chosen(rules, event, paths, labels) && Approvals(rules, more)
  }

  ghost predicate KeepsAllButEif(rules: Rules, event: string, paths: seq<string>, more: seq<string>, labels: seq<string>) {
    forall id :: Selects(rules, event, paths, labels, id) && id != EIF ==> Selects(rules, event, more, labels, id)
  }

  /** Each lane that the image build requires directly is chosen by a path or label itself, or a chain of requirements in
      the table leads to it from a lane that is. */
  ghost predicate EifNeedsReached(rules: Rules, event: string, more: seq<string>, labels: seq<string>) {
    forall id :: id in Needs(ById(rules.lanes), EIF) && id != EIF ==>
      Reaches(ById(rules.lanes), Chosen(rules, event, more, labels), id)
  }

  /**
   * More changed paths keep every other lane exactly when the image build is not dropped, or the lanes it requires
   * directly are reached from the chosen ones without it.
   */
  lemma {:induction false} MorePathsKeepLanes(rules: Rules, event: string, paths: seq<string>, more: seq<string>, labels: seq<string>)
    requires Within(paths, more)
    ensures KeepsAllButEif(rules, event, paths, more, labels)
       <==> (Drops(rules, event, paths, more, labels) ==> EifNeedsReached(rules, event, more, labels))
  {
    hide Chosen, Reaches, ById;
    var table := ById(rules.lanes);
    var a := Chosen(rules, event, paths, labels);
    if KeepsAllButEif(rules, event, paths, more, labels) && Drops(rules, event, paths, more, labels) {
      forall id | id in Needs(table, EIF) && id != EIF ensures Selects(rules, event, more, labels, id) {
        ReachesItself(table, a, EIF);
        ReachesNext(table, a, EIF, id);
      }
    }
    if Drops(rules, event, paths, more, labels) ==> EifNeedsReached(rules, event, more, labels) {
      forall id | Selects(rules, event, paths, labels, id) && id != EIF ensures Selects(rules, event, more, labels, id) {
        StillReached(rules, event, paths, more, labels, id);
      }
    }
  }

  lemma {:induction false} ChosenGrows(rules: Rules, event: string, paths: seq<string>, more: seq<string>, labels: seq<string>)
    requires Within(paths, more)
    ensures Chosen(rules, event, paths, labels) <= Chosen(rules, event, more, labels) + {EIF}
    ensures !Drops(rules, event, paths, more, labels) ==> Chosen(rules, event, paths, labels) <= Chosen(rules, event, more, labels)
  {
    hide Picked;
    PickedGrows(rules, event, paths, more, labels);
  }

  /** Along a path of requirements: each lane is still reached, or is the dropped image build. */
  lemma {:induction false} StillOnPath(rules: Rules, event: string, paths: seq<string>, more: seq<string>, labels: seq<string>, p: seq<string>)
    requires Within(paths, more)
    requires Drops(rules, event, paths, more, labels) ==> EifNeedsReached(rules, event, more, labels)
    requires IsPath(ById(rules.lanes), p) && p[0] in Chosen(rules, event, paths, labels)
    ensures Selects(rules, event, more, labels, p[|p| - 1])
         || (p[|p| - 1] == EIF && Drops(rules, event, paths, more, labels))
  {
    hide Chosen, Reaches, ById;
    var table := ById(rules.lanes);
    var b := Chosen(rules, event, more, labels);
    if |p| == 1 {
      ChosenGrows(rules, event, paths, more, labels);
      if p[0] in b {
        ReachesItself(table, b, p[0]);
      }
    } else {
      var before := p[..|p| - 1];
      StillOnPath(rules, event, paths, more, labels, before);
      var (x, y) := (p[|p| - 2], p[|p| - 1]);
      assert p[|p| - 2 + 1] in Needs(table, x);
      if Selects(rules, event, more, labels, x) {
        ReachesNext(table, b, x, y);
      }
    }
  }

  lemma {:induction false} StillReached(rules: Rules, event: string, paths: seq<string>, more: seq<string>, labels: seq<string>, id: string)
    requires Within(paths, more) && Selects(rules, event, paths, labels, id) && id != EIF
    requires Drops(rules, event, paths, more, labels) ==> EifNeedsReached(rules, event, more, labels)
    ensures Selects(rules, event, more, labels, id)
  {
    hide Chosen, ById;
    var p :| PathTo(ById(rules.lanes), Chosen(rules, event, paths, labels), p, id);
    StillOnPath(rules, event, paths, more, labels, p);
  }

  /** With an image build that requires nothing, as in the lane table, more changes never deselect another lane. */
  lemma {:induction false} MorePathsNeverDeselect(rules: Rules, event: string, paths: seq<string>, more: seq<string>, labels: seq<string>, id: string)
    requires Within(paths, more) && Needs(ById(rules.lanes), EIF) == []
    requires Selects(rules, event, paths, labels, id) && id != EIF
    ensures Selects(rules, event, more, labels, id)
  {
    MorePathsKeepLanes(rules, event, paths, more, labels);
  }

  /** A table in which the image build requires a lane that nothing else selects. */
  function WithHelper(): Rules {
    var eif := Lane(EIF, [], [], None, [], {"pr"}, false, Some("eif"), ["kit"]);
    var helper := Lane("kit", [], [], None, [], {"pr"}, false, None, []);
    Rules([eif, helper], [], ["a", "b"], [], {"pr"}, (path, globs) => path in globs,
          path => if path == "b" then {APPROVALS} else {"eif"})
  }

  lemma {:induction false} TwoLanes(a: Lane, b: Lane)
    requires a.id != b.id
    ensures Needs(ById([a, b]), a.id) == a.needs
  {
    assert [a, b][..1] == [a] && [a][..0] == [];
    assert ById([a]) == map[a.id := a];
  }

  /** There, editing the approvals as well takes the required lane away. */
  lemma {:induction false} MorePathsCanDeselect()
    ensures Within(["a"], ["a", "b"]) && !KeepsAllButEif(WithHelper(), "pr", ["a"], ["a", "b"], [])
  {
    var rules := WithHelper();
    var table := ById(rules.lanes);
    TwoLanes(rules.lanes[0], rules.lanes[1]);
    HelperPicks();
    HelperChosen();
    hide Chosen, Picks, WithHelper;
    var a := Chosen(rules, "pr", ["a"], []);
    ReachesItself(table, a, EIF);
    ReachesNext(table, a, EIF, "kit");
    assert Selects(rules, "pr", ["a"], [], "kit");
    assert !Selects(rules, "pr", ["a", "b"], [], "kit");
  }

  lemma {:induction false} HelperPicks()
    ensures var rules := WithHelper(); var (eif, kit) := (rules.lanes[0], rules.lanes[1]);
            && Picks(rules, "pr", eif, "a") && !Picks(rules, "pr", kit, "a") && !Picks(rules, "pr", kit, "b")
  {
    var rules := WithHelper();
    SplitWhole("a", '/');
    SplitWhole("b", '/');
    hide Split;
    assert "a" in rules.infra + rules.opensecret && "b" in rules.infra + rules.opensecret;
    assert !Malformed("a") && !Malformed("b");
    assert Classified(rules, "a") && Classified(rules, "b");
  }

  lemma {:induction false} HelperChosen()
    ensures EIF in Chosen(WithHelper(), "pr", ["a"], []) && Chosen(WithHelper(), "pr", ["a", "b"], []) == {}
  {
    HelperPicks();
    var rules := WithHelper();
    hide Picks;
    assert "a" in ["a"] && "b" in ["a", "b"];
    assert PicksAny(rules, "pr", rules.lanes[0], ["a"]) && !PicksAny(rules, "pr", rules.lanes[1], ["a", "b"]);
    assert !Approvals(rules, ["a"]) && Approvals(rules, ["a", "b"]);
    assert rules.lanes[0] in rules.lanes;
  }
}
