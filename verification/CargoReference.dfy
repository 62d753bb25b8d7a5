/** Dependency references of a Cargo.lock: how Cargo abbreviates them and how they are resolved. */
module CargoReference {
  import opened Collections

  /** What tells locked packages apart. A package without a source is local. */
  datatype Key = Key(name: string, version: string, source: Option<string>)

  /** What a package is called in the normalised graph. Local packages drop their version, third-party ones keep everything. */
  datatype Identity = Identity(name: string, version: string, source: string)

  function IdentityOf(k: Key): Identity {
    if k.source.None? then Identity(k.name, "", "") else Identity(k.name, k.version, k.source.value)
  }

  // ---------------------------------------------------------------- the text of a reference

  /** Python's `\s`. */
  predicate IsSpace(c: char) {
    var n := c as int;
    0x09 <= n <= 0x0D || 0x1C <= n <= 0x20 || n == 0x85 || n == 0xA0 || n == 0x1680 || 0x2000 <= n <= 0x200A
    || n == 0x2028 || n == 0x2029 || n == 0x202F || n == 0x205F || n == 0x3000
  }

  predicate WordChar(c: char) { !IsSpace(c) && c != '(' && c != ')' }

  predicate IsWord(s: string) { s != [] && forall i :: 0 <= i < |s| ==> WordChar(s[i]) }

  /** Names, versions and sources are words: printable ASCII without spaces and parentheses. */
  lemma {:induction false} PrintableIsWord(s: string)
    requires s != [] && forall i :: 0 <= i < |s| ==> '!' <= s[i] <= '~' && s[i] != '(' && s[i] != ')'
    ensures IsWord(s)
  {
    forall i | 0 <= i < |s| ensures WordChar(s[i]) {
      assert 0x21 <= s[i] as int <= 0x7E;
    }
  }

  /** The length of the longest prefix of word characters. */
  function WordLength(s: string): (n: nat)
    ensures n <= |s|
  {
    if s == [] || !WordChar(s[0]) then 0 else 1 + WordLength(s[1..])
  }

  datatype Reference = Reference(name: string, version: Option<string>, source: Option<string>)

  /** `name`, `name version`, `name (source)` or `name version (source)`, and nothing else. */
  function ParseReference(s: string): Option<Reference> {
    var n := WordLength(s);
    if n == 0 then None
    else if n == |s| then Some(Reference(s, None, None))
    else if s[n] != ' ' then None
    else
      var rest := s[n + 1..];
      var m := WordLength(rest);
      if m == 0 then ParseSource(Reference(s[..n], None, None), rest)
      else if m == |rest| then Some(Reference(s[..n], Some(rest), None))
      else if rest[m] != ' ' then None
      else ParseSource(Reference(s[..n], Some(rest[..m]), None), rest[m + 1..])
  }

  function ParseSource(r: Reference, s: string): Option<Reference> {
    if |s| < 3 || s[0] != '(' || s[|s| - 1] != ')' || WordLength(s[1..|s| - 1]) != |s| - 2 then None
    else Some(r.(source := Some(s[1..|s| - 1])))
  }

  function ReferenceText(r: Reference): string {
    r.name + (if r.version.Some? then " " + r.version.value else "")
           + (if r.source.Some? then " (" + r.source.value + ")" else "")
  }

  lemma {:induction false} WordLengthOf(w: string, rest: string)
    requires forall i :: 0 <= i < |w| ==> WordChar(w[i])
    requires rest == [] || !WordChar(rest[0])
    ensures WordLength(w + rest) == |w|
  {
    hide WordChar;
    if w == [] {
      assert w + rest == rest;
    } else {
      assert (w + rest)[1..] == w[1..] + rest;
      WordLengthOf(w[1..], rest);
    }
  }

  /** Parsing undoes writing. */
  lemma {:induction false} ParseReferenceText(r: Reference)
    requires IsWord(r.name) && (r.version.Some? ==> IsWord(r.version.value)) && (r.source.Some? ==> IsWord(r.source.value))
    ensures ParseReference(ReferenceText(r)) == Some(r)
  {
    hide WordChar, WordLength, ParseReference, ReferenceText, IsWord;
    match (r.version, r.source)
    case (None, None) => ParseName(r.name);
    case (None, Some(src)) => ParseNameSource(r.name, src);
    case (Some(v), None) => ParseNameVersion(r.name, v);
    case (Some(v), Some(src)) => ParseFull(r.name, v, src);
  }

  lemma {:induction false} ParseName(n: string)
    requires IsWord(n)
    ensures ParseReference(ReferenceText(Reference(n, None, None))) == Some(Reference(n, None, None))
  {
    hide WordChar, WordLength;
    assert ReferenceText(Reference(n, None, None)) == n + "" == n;
    WordLengthOf(n, "");
  }

  lemma {:induction false} ParseNameVersion(n: string, v: string)
    requires IsWord(n) && IsWord(v)
    ensures ParseReference(ReferenceText(Reference(n, Some(v), None))) == Some(Reference(n, Some(v), None))
  {
    hide WordChar, WordLength;
    Breaks();
    var text := ReferenceText(Reference(n, Some(v), None));
    assert text == n + (" " + v);
    WordLengthOf(n, " " + v);
    assert text[..|n|] == n && text[|n| + 1..] == v == v + "";
    WordLengthOf(v, "");
  }

  lemma {:induction false} ParseNameSource(n: string, src: string)
    requires IsWord(n) && IsWord(src)
    ensures ParseReference(ReferenceText(Reference(n, None, Some(src)))) == Some(Reference(n, None, Some(src)))
  {
    hide WordChar, ParseSource;
    Breaks();
    var text := ReferenceText(Reference(n, None, Some(src)));
    var tail := "(" + src + ")";
    assert text == n + (" " + tail);
    WordLengthOf(n, " " + tail);
    assert text[..|n|] == n && text[|n| + 1..] == tail;
    assert WordLength(tail) == 0;
    ParseSourceOf(Reference(n, None, None), src);
  }

  lemma {:induction false} ParseFull(n: string, v: string, src: string)
    requires IsWord(n) && IsWord(v) && IsWord(src)
    ensures ParseReference(ReferenceText(Reference(n, Some(v), Some(src)))) == Some(Reference(n, Some(v), Some(src)))
  {
    hide WordChar, WordLength, ParseSource;
    Breaks();
    var text := ReferenceText(Reference(n, Some(v), Some(src)));
    var tail := "(" + src + ")";
    var rest := v + (" " + tail);
    assert text == n + (" " + rest);
    WordLengthOf(n, " " + rest);
    assert text[..|n|] == n && text[|n| + 1..] == rest;
    WordLengthOf(v, " " + tail);
    assert rest[..|v|] == v && rest[|v| + 1..] == tail;
    ParseSourceOf(Reference(n, Some(v), None), src);
  }

  lemma {:induction false} ParseSourceOf(r: Reference, src: string)
    requires IsWord(src)
    ensures ParseSource(r, "(" + src + ")") == Some(r.(source := Some(src)))
  {
    hide WordChar, WordLength;
    var tail := "(" + src + ")";
    assert tail[1..|tail| - 1] == src == src + "";
    WordLengthOf(src, "");
  }

  lemma {:induction false} Breaks()
    ensures !WordChar(' ') && !WordChar('(')
  {
  }

  // ---------------------------------------------------------------- resolving

  function Filter<T>(s: seq<T>, p: T -> bool): seq<T> {
    if s == [] then [] else (if p(s[0]) then [s[0]] else []) + Filter(s[1..], p)
  }

  function BeforeHash(s: string): string {
    if s == [] || s[0] == '#' then [] else [s[0]] + BeforeHash(s[1..])
  }

  /** Exactly one version is locked among the candidates. */
  predicate OneVersion(ks: seq<Key>) {
    ks != [] && forall i :: 0 <= i < |ks| ==> ks[i].version == ks[0].version
  }

  function Named(name: string): Key -> bool { (k: Key) => k.name == name }
  function Versioned(version: string): Key -> bool { (k: Key) => k.version == version }
  function Local(): Key -> bool { (k: Key) => k.source.None? }
  function From(source: string): Key -> bool {
    (k: Key) => k.source.Some? && BeforeHash(k.source.value) == BeforeHash(source)
  }

  /** The candidates that a reference leaves, out of the packages of its name. */
  function Candidates(r: Reference, named: seq<Key>): seq<Key> {
    var versioned :=
      if r.version.None? then (if OneVersion(named) then named else [])
      else Filter(named, Versioned(r.version.value));
    if r.source.Some? then Filter(versioned, From(r.source.value))
    else
      var local := Filter(versioned, Local());
      if local != [] then local else versioned
  }

  function Resolve(text: string, ks: seq<Key>): Result<Identity> {
    match ParseReference(text)
    case None => Err
    case Some(r) =>
      var found := Candidates(r, Filter(ks, Named(r.name)));
      if |found| == 1 then Ok(IdentityOf(found[0])) else Err
  }

  // ---------------------------------------------------------------- Cargo's spelling

  ghost predicate OnlyOfName(ks: seq<Key>, i: nat)
    requires i < |ks|
  {
    forall j :: 0 <= j < |ks| && ks[j].name == ks[i].name ==> j == i
  }

  ghost predicate OnlyOfVersion(ks: seq<Key>, i: nat)
    requires i < |ks|
  {
    forall j :: 0 <= j < |ks| && ks[j].name == ks[i].name && ks[j].version == ks[i].version ==> j == i
  }

  /** How Cargo writes a dependency on package `i`: as briefly as the lock allows, never with
      the source of a local package, and without the commit of a git source. */
  ghost function Spelling(ks: seq<Key>, i: nat): Reference
    requires i < |ks|
  {
    if OnlyOfName(ks, i) then Reference(ks[i].name, None, None)
    else if OnlyOfVersion(ks, i) || ks[i].source.None? then Reference(ks[i].name, Some(ks[i].version), None)
    else Reference(ks[i].name, Some(ks[i].version), Some(BeforeHash(ks[i].source.value)))
  }

  /** The parts of every key can stand in a reference, no two packages share an identity, and
      packages of one name and version come from sources that differ before the `#`. */
  ghost predicate Tellable(ks: seq<Key>) {
    && (forall i :: 0 <= i < |ks| ==>
          && IsWord(ks[i].name) && IsWord(ks[i].version)
          && (ks[i].source.Some? ==> IsWord(BeforeHash(ks[i].source.value))))
    && (forall i, j :: 0 <= i < j < |ks| ==> IdentityOf(ks[i]) != IdentityOf(ks[j]))
    && (forall i, j :: 0 <= i < j < |ks| && ks[i].name == ks[j].name && ks[i].version == ks[j].version ==>
          ks[i].source.Some? && ks[j].source.Some? ==> BeforeHash(ks[i].source.value) != BeforeHash(ks[j].source.value))
  }

  /** Only `s[i]` satisfies `p`. */
  lemma {:induction false} FilterOne<T>(s: seq<T>, p: T -> bool, i: nat)
    requires i < |s| && p(s[i]) && forall j :: 0 <= j < |s| && j != i ==> !p(s[j])
    ensures Filter(s, p) == [s[i]]
  {
    if i == 0 {
      FilterNone(s[1..], p);
    } else {
      FilterOne(s[1..], p, i - 1);
    }
  }

  lemma {:induction false} FilterNone<T>(s: seq<T>, p: T -> bool)
    requires forall j :: 0 <= j < |s| ==> !p(s[j])
    ensures Filter(s, p) == []
  {
    if s != [] { FilterNone(s[1..], p); }
  }

  lemma {:induction false} FilterTwice<T>(s: seq<T>, p: T -> bool, q: T -> bool, both: T -> bool)
    requires forall x :: x in s ==> both(x) == (p(x) && q(x))
    ensures Filter(Filter(s, p), q) == Filter(s, both)
  {
    if s != [] {
      var rest := Filter(s[1..], p);
      FilterTwice(s[1..], p, q, both);
      assert ([s[0]] + rest)[1..] == rest;
      assert Filter(s, p) == if p(s[0]) then [s[0]] + rest else rest;
    }
  }

  // ---------------------------------------------------------------- resolving undoes spelling

  /** The packages that a reference selects, before local ones are preferred. */
  function Selects(r: Reference): Key -> bool {
    (k: Key) => && k.name == r.name
                && (r.version.Some? ==> k.version == r.version.value)
                && (r.source.Some? ==> From(r.source.value)(k))
  }

  lemma {:induction false} VersionedCandidates(r: Reference, ks: seq<Key>)
    requires r.version.Some?
    ensures var all := Filter(ks, Selects(r));
            var local := Filter(all, Local());
            Candidates(r, Filter(ks, Named(r.name))) == if r.source.Some? || local == [] then all else local
  {
    hide From, BeforeHash;
    var nv := Selects(r.(source := None));
    FilterTwice(ks, Named(r.name), Versioned(r.version.value), nv);
    if r.source.Some? {
      FilterTwice(ks, nv, From(r.source.value), Selects(r));
    } else {
      assert r.(source := None) == r;
    }
  }

  /** Resolving the abbreviated reference to a package yields that package. */
  lemma {:induction false} ResolveUndoesSpelling(ks: seq<Key>, i: nat)
    requires Tellable(ks) && i < |ks|
    ensures Resolve(ReferenceText(Spelling(ks, i)), ks) == Ok(IdentityOf(ks[i]))
  {
    hide ReferenceText, ParseReference, IsWord, Candidates, Filter;
    var r := Spelling(ks, i);
    ParseReferenceText(r);
    assert Candidates(r, Filter(ks, Named(r.name))) == [ks[i]] by {
      if OnlyOfName(ks, i) {
        ResolveByName(ks, i);
      } else if OnlyOfVersion(ks, i) {
        ResolveByVersion(ks, i);
      } else if ks[i].source.None? {
        ResolveLocal(ks, i);
      } else {
        ResolveBySource(ks, i);
      }
    }
  }

  lemma {:induction false} ResolveByName(ks: seq<Key>, i: nat)
    requires i < |ks| && OnlyOfName(ks, i)
    ensures Candidates(Reference(ks[i].name, None, None), Filter(ks, Named(ks[i].name))) == [ks[i]]
  {
    FilterOne(ks, Named(ks[i].name), i);
    if ks[i].source.None? { FilterOne([ks[i]], Local(), 0); } else { FilterNone([ks[i]], Local()); }
    hide Filter;
  }

  lemma {:induction false} ResolveByVersion(ks: seq<Key>, i: nat)
    requires i < |ks| && OnlyOfVersion(ks, i)
    ensures Candidates(Reference(ks[i].name, Some(ks[i].version), None), Filter(ks, Named(ks[i].name))) == [ks[i]]
  {
    var r := Reference(ks[i].name, Some(ks[i].version), None);
    hide Candidates;
    VersionedCandidates(r, ks);
    FilterOne(ks, Selects(r), i);
  }

  /** A local package wins over the third-party ones of its name and version. */
  lemma {:induction false} ResolveLocal(ks: seq<Key>, i: nat)
    requires Tellable(ks) && i < |ks| && ks[i].source.None?
    ensures Candidates(Reference(ks[i].name, Some(ks[i].version), None), Filter(ks, Named(ks[i].name))) == [ks[i]]
  {
    var r := Reference(ks[i].name, Some(ks[i].version), None);
    hide Candidates, IsWord, BeforeHash;
    VersionedCandidates(r, ks);
    var localOnes := (k: Key) => Selects(r)(k) && Local()(k);
    FilterTwice(ks, Selects(r), Local(), localOnes);
    forall j | 0 <= j < |ks| && j != i ensures !localOnes(ks[j]) {
      assert IdentityOf(ks[j]) != IdentityOf(ks[i]);
    }
    FilterOne(ks, localOnes, i);
  }

  lemma {:induction false} ResolveBySource(ks: seq<Key>, i: nat)
    requires Tellable(ks) && i < |ks| && ks[i].source.Some?
    ensures Candidates(Reference(ks[i].name, Some(ks[i].version), Some(BeforeHash(ks[i].source.value))),
                       Filter(ks, Named(ks[i].name))) == [ks[i]]
  {
    var r := Reference(ks[i].name, Some(ks[i].version), Some(BeforeHash(ks[i].source.value)));
    BeforeHashTwice(ks[i].source.value);
    hide Candidates, IsWord, BeforeHash;
    VersionedCandidates(r, ks);
    FilterOne(ks, Selects(r), i);
  }

  lemma {:induction false} BeforeHashTwice(s: string)
    ensures BeforeHash(BeforeHash(s)) == BeforeHash(s)
  {
    if s != [] && s[0] != '#' { BeforeHashTwice(s[1..]); }
  }
}
