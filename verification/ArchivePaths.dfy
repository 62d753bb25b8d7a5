/** The paths of a package archive: no path twice, and nothing below a file. */
module ArchivePaths {
  import opened Collections
  import opened Strings

  const MAX_MEMBERS := 1024

  /** A member with its case-folded path, or none when the member alone is already refused. */
  datatype Member = Member(key: Option<string>, isFile: bool)

  // ---------------------------------------------------------------- ancestors

  function Join(parts: seq<string>): string {
    if parts == [] then "" else if |parts| == 1 then parts[0] else parts[0] + "/" + Join(parts[1..])
  }

  /** The leading parts of a path, joined again: one part, two parts, and so on short of all of them. */
  function Parents(key: string): (ps: seq<string>)
    ensures |ps| == |Split(key, '/')| - 1
  {
    var parts := Split(key, '/');
    seq(|parts| - 1, i requires 0 <= i < |parts| - 1 => Join(parts[..i + 1]))
  }

  /** `p` is a directory that `key` lies in. */
  predicate Ancestor(p: string, key: string) { StartsWith(key, p + "/") }

  lemma {:induction false} JoinFirst(c: string, parts: seq<string>, i: nat)
    requires parts != [] && 1 <= i <= |parts|
    ensures Join(([c + parts[0]] + parts[1..])[..i]) == c + Join(parts[..i])
  {
    var whole := [c + parts[0]] + parts[1..];
    if i == 1 {
      assert whole[..1] == [c + parts[0]] && parts[..1] == [parts[0]];
    } else {
      assert whole[..i][1..] == parts[..i][1..];
      assert c + parts[0] + "/" + Join(parts[..i][1..]) == c + (parts[0] + "/" + Join(parts[..i][1..]));
    }
  }

  lemma {:induction false} JoinEmpty(parts: seq<string>, i: nat)
    requires 1 <= i <= |parts|
    ensures Join(([""] + parts)[..i + 1]) == "/" + Join(parts[..i])
  {
    assert ([""] + parts)[..i + 1][1..] == parts[..i];
  }

  lemma {:induction false} RootParent(key: string)
    requires key != "" && key[0] == '/'
    ensures |Parents(key)| > 0 && Parents(key)[0] == ""
  {
    var parts := Split(key, '/');
    assert parts[0] == "" && |Split(key[1..], '/')| >= 1;
    assert parts[..0 + 1] == [""];
    assert Join([""]) == "";
  }

  /** The parent at `i` is followed by a slash in the path. */
  lemma {:induction false} ParentIsAncestor(key: string, i: nat)
    requires i < |Parents(key)|
    ensures Ancestor(Parents(key)[i], key)
  {
    if key != [] {
      var rest := key[1..];
      var parts := Split(rest, '/');
      if key[0] == '/' {
        if i == 0 {
          RootParent(key);
          assert "" + "/" == key[..1];
        } else {
          ParentIsAncestor(rest, i - 1);
          JoinEmpty(parts, i);
          assert Parents(key)[i] + "/" == "/" + (Parents(rest)[i - 1] + "/");
          assert key == "/" + rest;
        }
      } else {
        ParentIsAncestor(rest, i);
        JoinFirst([key[0]], parts, i + 1);
        assert Parents(key)[i] + "/" == [key[0]] + (Parents(rest)[i] + "/");
        assert key == [key[0]] + rest;
      }
    }
  }

  lemma {:induction false} AncestorIsParent(p: string, key: string) returns (i: nat)
    requires Ancestor(p, key)
    ensures i < |Parents(key)| && Parents(key)[i] == p
  {
    var rest := key[1..];
    var parts := Split(rest, '/');
    assert key == [key[0]] + rest;
    if p == "" {
      assert key[0] == '/';
      i := 0;
      RootParent(key);
    } else {
      var q := p[1..];
      assert p == [key[0]] + q;
      assert p + "/" == [key[0]] + (q + "/");
      assert Ancestor(q, rest);
      var j := AncestorIsParent(q, rest);
      if key[0] == '/' {
        i := j + 1;
        JoinEmpty(parts, j + 1);
        assert Parents(key)[i] == "/" + Parents(rest)[j];
      } else {
        i := j;
        JoinFirst([key[0]], parts, j + 1);
        assert Parents(key)[i] == [key[0]] + Parents(rest)[j];
      }
    }
  }

  /** Splitting at slashes and joining again finds exactly the proper ancestors. */
  lemma {:induction false} ParentsAreAncestors(p: string, key: string)
    ensures p in Parents(key) <==> Ancestor(p, key)
  {
    if p in Parents(key) {
      var i :| 0 <= i < |Parents(key)| && Parents(key)[i] == p;
      ParentIsAncestor(key, i);
    }
    if Ancestor(p, key) {
      var i := AncestorIsParent(p, key);
    }
  }

  // ---------------------------------------------------------------- what is accepted

  /** Each member may stand beside each other one. */
  predicate Compatible(a: Member, b: Member)
    requires a.key.Some? && b.key.Some?
  {
    a.key != b.key && !(a.isFile && Ancestor(a.key.value, b.key.value)) && !(b.isFile && Ancestor(b.key.value, a.key.value))
  }

  ghost predicate Acceptable(members: seq<Member>) {
    && |members| <= MAX_MEMBERS
    && (forall i :: 0 <= i < |members| ==> members[i].key.Some?)
    && (forall i, j :: 0 <= i < j < |members| ==> Compatible(members[i], members[j]))
  }

  /** The dictionary of accepted paths. */
  ghost predicate Records(paths: map<string, bool>, members: seq<Member>) {
    && (forall m :: m in members ==> m.key.Some? && m.key.value in paths && paths[m.key.value] == m.isFile)
    && (forall k :: k in paths ==> Member(Some(k), paths[k]) in members)
  }

  /** The tests that one more member has to pass. */
  method Admits(paths: map<string, bool>, member: Member, ghost seen: seq<Member>) returns (ok: bool)
    requires Records(paths, seen)
    ensures ok <==> member.key.Some? && forall m :: m in seen ==> m.key.Some? && Compatible(m, member)
  {
    if member.key.None? {
      return false;
    }
    var key := member.key.value;
    if key in paths {
      assert Member(Some(key), paths[key]) in seen;
      return false;
    }
    var parents := Parents(key);
    for i := 0 to |parents|
      invariant forall j :: 0 <= j < i ==> !(parents[j] in paths && paths[parents[j]])
    {
      if parents[i] in paths && paths[parents[i]] {
        ParentsAreAncestors(parents[i], key);
        assert !Compatible(Member(Some(parents[i]), true), member);
        return false;
      }
    }
    if member.isFile && exists item :: item in paths && Ancestor(key, item) {
      ghost var item :| item in paths && Ancestor(key, item);
      assert !Compatible(Member(Some(item), paths[item]), member);
      return false;
    }
    forall m | m in seen ensures m.key.Some? && Compatible(m, member) {
      ParentsAreAncestors(m.key.value, key);
    }
    return true;
  }

  method CheckPaths(members: seq<Member>) returns (r: Result<map<string, bool>>)
    ensures r.Ok? <==> Acceptable(members)
    ensures r.Ok? ==> Records(r.value, members)
  {
    hide Acceptable, Records, Compatible;
    NothingYet();
    var paths: map<string, bool> := map[];
    assert members[..0] == [];
    for i := 0 to |members|
      invariant |paths| == i <= MAX_MEMBERS
      invariant Acceptable(members[..i]) && Records(paths, members[..i])
    {
      var (done, member) := (members[..i], members[i]);
      if |paths| >= MAX_MEMBERS {
        TooMany(members);
        return Err;
      }
      var ok := Admits(paths, member, done);
      AcceptableStep(members, i);
      if !ok {
        AcceptablePrefix(members, i + 1);
        return Err;
      }
      RecordsStep(paths, members, i);
      paths := paths[member.key.value := member.isFile];
    }
    assert members[..|members|] == members;
    return Ok(paths);
  }

  lemma {:induction false} NothingYet()
    ensures Acceptable([]) && Records(map[], [])
  {
  }

  lemma {:induction false} TooMany(members: seq<Member>)
    requires |members| > MAX_MEMBERS
    ensures !Acceptable(members)
  {
  }

  lemma {:induction false} AcceptablePrefix(members: seq<Member>, n: nat)
    requires n <= |members|
    ensures Acceptable(members) ==> Acceptable(members[..n])
  {
    hide Compatible;
  }

  lemma {:induction false} AcceptableStep(members: seq<Member>, i: nat)
    requires i < |members| && i < MAX_MEMBERS && Acceptable(members[..i])
    ensures Acceptable(members[..i + 1])
       <==> members[i].key.Some? && forall m :: m in members[..i] ==> m.key.Some? && Compatible(m, members[i])
  {
    hide Compatible;
    var (done, next) := (members[..i], members[..i + 1]);
    assert next == done + [members[i]];
    if Acceptable(next) {
      forall m | m in done ensures m.key.Some? && Compatible(m, members[i]) {
        var j :| 0 <= j < |done| && done[j] == m;
        assert next[j] == m && next[i] == members[i];
      }
    }
    if members[i].key.Some? && (forall m :: m in done ==> m.key.Some? && Compatible(m, members[i])) {
      forall j, k | 0 <= j < k < |next| ensures Compatible(next[j], next[k]) {
        assert next[j] == done[j] && done[j] in done;
        if k < i {
          assert next[k] == done[k];
        }
      }
    }
  }

  lemma {:induction false} RecordsStep(paths: map<string, bool>, members: seq<Member>, i: nat)
    requires i < |members| && Records(paths, members[..i]) && Acceptable(members[..i + 1])
    ensures members[i].key.Some? && members[i].key.value !in paths
    ensures Records(paths[members[i].key.value := members[i].isFile], members[..i + 1])
  {
    hide Ancestor;
    var (done, next, member) := (members[..i], members[..i + 1], members[i]);
    assert next == done + [member] && next[i] == member;
    forall m | m in done ensures m.key != member.key {
      var j :| 0 <= j < |done| && done[j] == m;
      assert next[j] == m && Compatible(next[j], next[i]);
    }
  }

  // ---------------------------------------------------------------- the order of the members does not matter

  lemma {:induction false} TwoPlaces<T>(s: seq<T>, t: seq<T>, i: nat, j: nat) returns (k: nat, l: nat)
    requires multiset(s) == multiset(t) && i < j < |s|
    ensures k < |t| && l < |t| && k != l && t[k] == s[i] && t[l] == s[j]
  {
    assert s[i] in multiset(s) && s[j] in multiset(s);
    k :| 0 <= k < |t| && t[k] == s[i];
    if s[i] != s[j] {
      l :| 0 <= l < |t| && t[l] == s[j];
    } else {
      CountsTwice(s, i, j);
      var rest := t[..k] + t[k + 1..];
      assert t == t[..k] + [t[k]] + t[k + 1..];
      assert multiset(t) == multiset(rest) + multiset{t[k]};
      assert s[j] in multiset(rest);
      var m :| 0 <= m < |rest| && rest[m] == s[j];
      l := if m < k then m else m + 1;
    }
  }

  lemma {:induction false} SameBagSameLength<T>(s: seq<T>, t: seq<T>)
    requires multiset(s) == multiset(t)
    ensures |s| == |t|
  {
    assert |multiset(s)| == |s| && |multiset(t)| == |t|;
  }

  lemma {:induction false} AcceptableReordered(a: seq<Member>, b: seq<Member>)
    requires multiset(a) == multiset(b) && Acceptable(a)
    ensures Acceptable(b)
  {
    hide Compatible;
    SameBagSameLength(a, b);
    forall i | 0 <= i < |b| ensures b[i].key.Some? {
      assert b[i] in multiset(b) && b[i] in a;
    }
    forall i, j | 0 <= i < j < |b| ensures Compatible(b[i], b[j]) {
      var k, l := TwoPlaces(b, a, i, j);
      CompatibleSymmetric(a[if k < l then k else l], a[if k < l then l else k]);
    }
  }

  lemma {:induction false} CompatibleSymmetric(a: Member, b: Member)
    requires a.key.Some? && b.key.Some?
    ensures Compatible(a, b) <==> Compatible(b, a)
  {
  }

  /** Members in any other order are accepted alike, and record the same paths. */
  lemma {:induction false} OrderDoesNotMatter(a: seq<Member>, b: seq<Member>, paths: map<string, bool>, other: map<string, bool>)
    requires multiset(a) == multiset(b)
    ensures Acceptable(a) <==> Acceptable(b)
    ensures Records(paths, a) && Records(other, b) ==> paths == other
  {
    hide Acceptable, Records;
    if Acceptable(a) {
      AcceptableReordered(a, b);
    }
    if Acceptable(b) {
      AcceptableReordered(b, a);
    }
    if Records(paths, a) && Records(other, b) {
      RecordsAgree(paths, other, a, b);
    }
  }

  lemma {:induction false} RecordsAgree(paths: map<string, bool>, other: map<string, bool>, a: seq<Member>, b: seq<Member>)
    requires multiset(a) == multiset(b) && Records(paths, a) && Records(other, b)
    ensures paths == other
  {
    assert forall m :: m in a <==> m in multiset(a);
    assert forall m :: m in b <==> m in multiset(b);
    RecordsContained(paths, other, a, b);
    RecordsContained(other, paths, b, a);
    assert paths.Keys == other.Keys;
  }

  lemma {:induction false} RecordsContained(paths: map<string, bool>, other: map<string, bool>, a: seq<Member>, b: seq<Member>)
    requires Records(paths, a) && Records(other, b) && forall m :: m in a ==> m in b
    ensures forall k :: k in paths ==> k in other && other[k] == paths[k]
  {
    forall k | k in paths ensures k in other && other[k] == paths[k] {
      var m := Member(Some(k), paths[k]);
      assert m in a;
      assert m in b;
    }
  }

  // ---------------------------------------------------------------- what acceptance means

  /** Acceptance, said without the loop: distinct paths, and no file above another path. */
  lemma {:induction false} AcceptableMeans(members: seq<Member>)
    ensures Acceptable(members) <==>
            && |members| <= MAX_MEMBERS
            && (forall i :: 0 <= i < |members| ==> members[i].key.Some?)
            && (forall i, j :: 0 <= i < j < |members| ==> members[i].key != members[j].key)
            && (forall i, j :: 0 <= i < |members| && 0 <= j < |members| && members[i].isFile ==>
                  !Ancestor(members[i].key.value, members[j].key.value))
  {
    forall m: Member ensures m.key.Some? ==> !Ancestor(m.key.value, m.key.value) {
    }
  }
}
