/** From the normalised graph to the JSON text whose digest is the cache key. */
module CargoKey {
  import opened Collections
  import opened Sorting
  import Strings
  import opened Json
  import JsonReader
  import CargoReference
  import opened CargoGraph
  import opened CargoRelease

  const SCHEMA := "maple-cargo-graph-key/1"

  // ---------------------------------------------------------------- keys in order

  ghost function SomeOrder(keys: set<string>): (ks: seq<string>)
    ensures NoDuplicates(ks) && forall k :: k in ks <==> k in keys
  {
    if keys == {} then []
    else
      var k :| k in keys;
      var rest := SomeOrder(keys - {k});
      assert forall x :: x in [k] + rest <==> x == k || x in rest;
      [k] + rest
  }

  /** The keys as `sort_keys` writes them. */
  ghost function OrderedKeys(keys: set<string>): (ks: seq<string>)
    ensures Sorted(ks, StringLeq) && NoDuplicates(ks) && forall k :: k in ks <==> k in keys
  {
    SortedKeys(SomeOrder(keys));
    Sort(SomeOrder(keys), StringLeq)
  }

  lemma {:induction false} SortedKeys(s: seq<string>)
    requires NoDuplicates(s)
    ensures var r := Sort(s, StringLeq); Sorted(r, StringLeq) && NoDuplicates(r) && forall k :: k in r <==> k in s
  {
    StringsInOrder();
    SortSorts(s, StringLeq);
    var r := Sort(s, StringLeq);
    forall k ensures k in r <==> k in s {
      assert k in r <==> k in multiset(r);
      assert k in s <==> k in multiset(s);
    }
    forall i, j | 0 <= i < j < |r| ensures r[i] != r[j] {
      OnceEach(s, r[i]);
      if r[i] == r[j] {
        CountsTwice(r, i, j);
      }
    }
  }

  lemma {:induction false} StringsInOrder()
    ensures TotalPreorder(StringLeq)
  {
    forall a, b ensures StringLeq(a, b) || StringLeq(b, a) {
      StringLeqTotal(a, b);
    }
    forall a, b, c | StringLeq(a, b) && StringLeq(b, c) ensures StringLeq(a, c) {
      StringLeqTransitive(a, b, c);
    }
  }

  // ---------------------------------------------------------------- TOML as JSON

  predicate AllDigits(s: string) { s != [] && forall i :: 0 <= i < |s| ==> '0' <= s[i] <= '9' }

  /** Digits, perhaps with a fraction. */
  predicate IsMantissa(s: string) {
    var d := Strings.IndexOf(s, '.');
    AllDigits(s[..d]) && (d < |s| ==> AllDigits(s[d + 1..]))
  }

  predicate IsExponent(s: string) {
    AllDigits(s) || (s != [] && (s[0] == '+' || s[0] == '-') && AllDigits(s[1..]))
  }

  predicate IsUnsigned(s: string) {
    var e := Strings.IndexOf(s, 'e');
    IsMantissa(s[..e]) && (e < |s| ==> IsExponent(s[e + 1..]))
  }

  /** The texts that are written for integers and floats. */
  predicate IsNumeral(s: string) {
    || s == "NaN" || s == "Infinity" || s == "-Infinity"
    || IsUnsigned(s) || (s != [] && s[0] == '-' && IsUnsigned(s[1..]))
  }

  predicate NumeralChar(c: char) { '0' <= c <= '9' || c == '.' || c == 'e' || c == '+' || c == '-' }

  /** A dash comes right after the `e`. */
  lemma {:induction false} UnsignedChars(s: string)
    requires IsUnsigned(s)
    ensures s != [] && '0' <= s[0] <= '9'
    ensures forall i :: 0 <= i < |s| ==> NumeralChar(s[i]) && (s[i] == '-' ==> i > 0 && s[i - 1] == 'e')
  {
    var e := Strings.IndexOf(s, 'e');
    var m := s[..e];
    var d := Strings.IndexOf(m, '.');
    forall i | 0 <= i < |s| ensures NumeralChar(s[i]) && (s[i] == '-' ==> i > 0 && s[i - 1] == 'e') {
      if i < d {
        assert s[i] == m[..d][i];
      } else if d < i < e {
        assert s[i] == m[d + 1..][i - d - 1];
      } else if i > e {
        var x := s[e + 1..];
        assert s[i] == x[i - e - 1];
        if i > e + 1 && !AllDigits(x) {
          assert s[i] == x[1..][i - e - 2];
        }
      }
    }
    assert s[0] == m[..d][0];
  }

  /** Numerals are among the texts that JSON can tell apart. */
  lemma {:induction false} NumeralIsNumber(s: string)
    requires IsNumeral(s)
    ensures IsNumber(s)
  {
    hide IsUnsigned;
    if IsUnsigned(s) {
      UnsignedChars(s);
    } else if s[0] == '-' && IsUnsigned(s[1..]) {
      UnsignedChars(s[1..]);
      assert forall i :: 1 <= i < |s| ==> s[i] == s[1..][i - 1];
    }
  }

  /** No date, whose year is followed by a dash, and no time, which has colons, is a numeral. */
  lemma {:induction false} DatesAreRefused(s: string)
    requires (|s| > 4 && '0' <= s[3] <= '9' && s[4] == '-') || ':' in s
    ensures !IsNumeral(s)
  {
    hide IsUnsigned;
    assert forall i :: 1 <= i < |s| ==> s[i] == s[1..][i - 1];
    if IsUnsigned(s) {
      UnsignedChars(s);
    }
    if s[0] == '-' && IsUnsigned(s[1..]) {
      UnsignedChars(s[1..]);
    }
  }

  /** A sign, digits, perhaps a fraction and perhaps an exponent with its own sign: all such texts are numerals. */
  lemma {:induction false} NumeralsAre(negative: bool, whole: string, fraction: Option<string>, exponent: Option<string>, sign: string)
    requires AllDigits(whole) && (fraction.Some? ==> AllDigits(fraction.value)) && (exponent.Some? ==> AllDigits(exponent.value))
    requires sign in {"", "+", "-"}
    ensures IsNumeral((if negative then "-" else "") + (whole + Fraction(fraction) + Exponent(exponent, sign)))
  {
    var mantissa := whole + Fraction(fraction);
    MantissaIs(whole, fraction);
    UnsignedIs(mantissa, exponent, sign);
    var s := mantissa + Exponent(exponent, sign);
    hide IsUnsigned, Fraction, Exponent;
    assert "-" + s == ['-'] + s && (['-'] + s)[1..] == s;
    assert "" + s == s;
  }

  function Fraction(f: Option<string>): string { if f.Some? then "." + f.value else "" }

  function Exponent(e: Option<string>, sign: string): string { if e.Some? then "e" + sign + e.value else "" }

  lemma {:induction false} FirstOf(a: string, c: char, b: string)
    requires c !in a
    ensures Strings.IndexOf(a + [c] + b, c) == |a|
  {
    var s := a + [c] + b;
    assert s[|a|] == c && forall i :: 0 <= i < |a| ==> s[i] == a[i];
  }

  lemma {:induction false} MantissaIs(whole: string, fraction: Option<string>)
    requires AllDigits(whole) && (fraction.Some? ==> AllDigits(fraction.value))
    ensures var m := whole + Fraction(fraction); IsMantissa(m) && 'e' !in m
  {
    var m := whole + Fraction(fraction);
    if fraction.Some? {
      assert m == whole + ['.'] + fraction.value;
      FirstOf(whole, '.', fraction.value);
      assert m[..|whole|] == whole && m[|whole| + 1..] == fraction.value;
    } else {
      assert m == whole && Strings.IndexOf(m, '.') == |m| && m[..|m|] == m;
    }
  }

  lemma {:induction false} UnsignedIs(m: string, exponent: Option<string>, sign: string)
    requires IsMantissa(m) && 'e' !in m && (exponent.Some? ==> AllDigits(exponent.value)) && sign in {"", "+", "-"}
    ensures IsUnsigned(m + Exponent(exponent, sign))
  {
    hide IsMantissa, AllDigits, IsExponent;
    var s := m + Exponent(exponent, sign);
    if exponent.Some? {
      var x := sign + exponent.value;
      ExponentIs(exponent.value, sign);
      JoinedExponent(m, sign, exponent.value);
      FirstOf(m, 'e', x);
    } else {
      assert s == m && Strings.IndexOf(m, 'e') == |m| && m[..|m|] == m;
    }
  }

  lemma {:induction false} JoinedExponent(m: string, sign: string, digits: string)
    ensures var (s, x) := (m + ("e" + sign + digits), sign + digits); s == m + ['e'] + x && s[..|m|] == m && s[|m| + 1..] == x
  {
  }

  lemma {:induction false} ExponentIs(digits: string, sign: string)
    requires AllDigits(digits) && sign in {"", "+", "-"}
    ensures IsExponent(sign + digits)
  {
    hide AllDigits;
    var x := sign + digits;
    if sign == "" {
      assert x == digits;
    } else {
      assert x[0] == sign[0] && x[1..] == digits;
    }
  }

  /** The value has a canonical form: it holds no date or time. */
  ghost predicate Representable(t: Toml) {
    match t
    case Text(_) => true
    case List(items) => forall i :: 0 <= i < |items| ==> Representable(items[i])
    case Table(entries) => forall k :: k in entries ==> Representable(entries[k])
    case Scalar(text) => text == "true" || text == "false" || IsNumeral(text)
  }

  ghost function JsonOf(t: Toml): Json {
    match t
    case Text(s) => Str(s)
    case List(items) => Arr(seq(|items|, i requires 0 <= i < |items| => JsonOf(items[i])))
    case Table(entries) =>
      var ks := OrderedKeys(entries.Keys);
      Obj(seq(|ks|, i requires 0 <= i < |ks| => Field(ks[i], if ks[i] in entries then JsonOf(entries[ks[i]]) else Null)))
    case Scalar(text) => if text == "true" then Bool(true) else if text == "false" then Bool(false) else Num(text)
  }

  lemma {:induction false} JsonValid(t: Toml)
    requires Representable(t)
    ensures Valid(JsonOf(t))
  {
    match t
    case Text(_) =>
    case List(items) =>
      forall i | 0 <= i < |items| ensures Valid(JsonOf(items[i])) {
        JsonValid(items[i]);
      }
    case Table(entries) =>
      var ks := OrderedKeys(entries.Keys);
      forall i | 0 <= i < |ks| ensures ks[i] in entries && Valid(JsonOf(entries[ks[i]])) {
        assert ks[i] in ks;
        JsonValid(entries[ks[i]]);
      }
    case Scalar(text) =>
      if IsNumeral(text) {
        NumeralIsNumber(text);
      }
  }

  /** The JSON form loses nothing. */
  lemma {:induction false} JsonInjective(a: Toml, b: Toml)
    requires Representable(a) && Representable(b) && JsonOf(a) == JsonOf(b)
    ensures a == b
  {
    match a
    case Text(_) =>
    case List(items) =>
      assert b.List? && |JsonOf(a).items| == |JsonOf(b).items|;
      forall i | 0 <= i < |items| ensures items[i] == b.items[i] {
        assert JsonOf(a).items[i] == JsonOf(b).items[i];
        JsonInjective(items[i], b.items[i]);
      }
    case Table(entries) =>
      assert b.Table?;
      var (ks, ls) := (OrderedKeys(entries.Keys), OrderedKeys(b.entries.Keys));
      SameFields(a, b);
      forall k | k in entries ensures entries[k] == b.entries[k] {
        assert k in ks;
        var i :| 0 <= i < |ks| && ks[i] == k;
        assert JsonOf(a).fields[i] == JsonOf(b).fields[i];
        JsonInjective(entries[k], b.entries[k]);
      }
    case Scalar(_) =>
  }

  lemma {:induction false} SameFields(a: Toml, b: Toml)
    requires a.Table? && b.Table? && JsonOf(a) == JsonOf(b)
    ensures OrderedKeys(a.entries.Keys) == OrderedKeys(b.entries.Keys) && a.entries.Keys == b.entries.Keys
  {
    var (ks, ls) := (OrderedKeys(a.entries.Keys), OrderedKeys(b.entries.Keys));
    assert |ks| == |JsonOf(a).fields| == |ls|;
    forall i | 0 <= i < |ks| ensures ks[i] == ls[i] {
      assert JsonOf(a).fields[i].key == ks[i] && JsonOf(b).fields[i].key == ls[i];
    }
    assert ks == ls;
    assert forall k :: k in a.entries.Keys <==> k in b.entries.Keys;
  }

  // ---------------------------------------------------------------- the payload

  /** Line ends as the key sees them. */
  function Unix(text: string): string {
    if text == [] then []
    else if |text| >= 2 && text[0] == '\r' && text[1] == '\n' then ['\n'] + Unix(text[2..])
    else [text[0]] + Unix(text[1..])
  }

  /** `text` is `plain` with a '\r' put before some of its newlines, and before each that follows a '\r' of its own. `after`
      says that a '\r' of its own stands just before. */
  predicate Spells(text: string, plain: string, after: bool) {
    if plain == [] then text == []
    else if plain[0] == '\n' then
      || (|text| >= 2 && text[0] == '\r' && text[1] == '\n' && Spells(text[2..], plain[1..], false))
      || (!after && text != [] && text[0] == '\n' && Spells(text[1..], plain[1..], false))
    else text != [] && text[0] == plain[0] && Spells(text[1..], plain[1..], plain[0] == '\r')
  }

  /** The two texts come from one by putting '\r' before newlines. */
  ghost predicate SameButReturns(a: string, b: string) {
    exists plain :: Spells(a, plain, false) && Spells(b, plain, false)
  }

  lemma {:induction false} SpellingHasUnix(text: string, plain: string, after: bool)
    requires Spells(text, plain, after)
    ensures Unix(text) == plain
    decreases |plain|
  {
    if plain == [] {
    } else if plain[0] == '\n' && text[0] == '\r' {
      SpellingHasUnix(text[2..], plain[1..], false);
    } else {
      SpellingHasUnix(text[1..], plain[1..], plain[0] == '\r');
    }
  }

  lemma {:induction false} UnixIsSpelt(text: string, after: bool)
    requires after ==> text == [] || text[0] != '\n'
    ensures Spells(text, Unix(text), after)
    decreases |text|
  {
    if text == [] {
    } else if |text| >= 2 && text[0] == '\r' && text[1] == '\n' {
      UnixIsSpelt(text[2..], false);
      assert Unix(text)[1..] == Unix(text[2..]);
    } else {
      UnixIsSpelt(text[1..], text[0] == '\r');
      assert Unix(text)[1..] == Unix(text[1..]);
    }
  }

  /** Two texts look alike to the key exactly when they come from one by putting '\r' before newlines. */
  lemma {:induction false} UnixDecides(a: string, b: string)
    ensures Unix(a) == Unix(b) <==> SameButReturns(a, b)
  {
    hide Unix, Spells;
    UnixIsSpelt(a, false);
    UnixIsSpelt(b, false);
    if SameButReturns(a, b) {
      var plain :| Spells(a, plain, false) && Spells(b, plain, false);
      SpellingHasUnix(a, plain, false);
      SpellingHasUnix(b, plain, false);
    }
  }

  /** A text without '\r' is its own plain text. */
  lemma {:induction false} PlainIsKept(text: string)
    requires forall i :: 0 <= i < |text| ==> text[i] != '\r'
    ensures Unix(text) == text
  {
    if text != [] { PlainIsKept(text[1..]); }
  }

  /** Why a newline after a '\r' of its own must get one: these are told apart. */
  lemma {:induction false} DoubleReturnsCount()
    ensures Unix("\r\r\n") == "\r\n" && Unix("\r\n") == "\n" && !SameButReturns("\r\r\n", "\r\n")
  {
    var (a, b, c) := ("\r\r\n", "\r\n", "\n");
    assert a[1..] == b && b[2..] == "" && Unix("") == "" && Unix(b) == c && Unix(a) == ['\r'] + Unix(b);
    UnixDecides(a, b);
  }

  function UnixAll(pins: seq<string>): (r: seq<string>)
    ensures |r| == |pins|
  {
    seq(|pins|, i requires 0 <= i < |pins| => Unix(pins[i]))
  }

  function Strs(texts: seq<string>): (r: seq<Json>)
    ensures |r| == |texts|
  {
    seq(|texts|, i requires 0 <= i < |texts| => Str(texts[i]))
  }

  /** The object that is hashed, its keys in order; `flake` has its own in order already. */
  ghost function Payload(cargo: Entries, flake: Json, pins: seq<string>): Json {
    Obj([Field("cargo", JsonOf(Table(cargo))), Field("flake", flake)]
        + (if pins == [] then [] else [Field("pins", Arr(Strs(UnixAll(pins))))])
        + [Field("schema", Str(SCHEMA))])
  }

  ghost function KeyText(lock: Entries, flake: Json, pins: seq<string>): Result<string> {
    match Graph(lock)
    case Err => Err
    case Ok(g) => if Representable(Table(g)) then Ok(Dump(Payload(g, flake, pins))) else Err
  }

  lemma {:induction false} PayloadValid(cargo: Entries, flake: Json, pins: seq<string>)
    requires Representable(Table(cargo)) && Valid(flake)
    ensures Valid(Payload(cargo, flake, pins))
  {
    JsonValid(Table(cargo));
    hide JsonOf, Representable;
    var fields := Payload(cargo, flake, pins).fields;
    assert |"cargo"| == 5 && |"flake"| == 5 && |"pins"| == 4 && |"schema"| == 6 && "cargo"[0] != "flake"[0];
    var texts := Strs(UnixAll(pins));
    assert forall i :: 0 <= i < |texts| ==> Valid(texts[i]);
    assert Valid(Arr(texts));
    assert forall i :: 0 <= i < |fields| ==> Valid(fields[i].value);
    assert DistinctKeys(fields);
  }

  lemma {:induction false} PayloadInjective(a: Entries, f: Json, p: seq<string>, b: Entries, g: Json, q: seq<string>)
    requires Representable(Table(a)) && Representable(Table(b)) && Payload(a, f, p) == Payload(b, g, q)
    ensures a == b && f == g && UnixAll(p) == UnixAll(q)
  {
    var (x, y) := (Payload(a, f, p).fields, Payload(b, g, q).fields);
    hide JsonOf, Representable;
    assert x[0] == y[0] && x[1] == y[1];
    assert |x| == if p == [] then 3 else 4;
    assert |y| == if q == [] then 3 else 4;
    assert Table(a) == Table(b) by { JsonInjective(Table(a), Table(b)); }
    if p != [] {
      assert x[2].value.items == Strs(UnixAll(p)) && y[2].value.items == Strs(UnixAll(q));
      forall i | 0 <= i < |p| ensures UnixAll(p)[i] == UnixAll(q)[i] {
        assert Strs(UnixAll(p))[i] == Strs(UnixAll(q))[i];
      }
    }
  }

  // ---------------------------------------------------------------- when there is a key

  ghost predicate AllRepresentable(e: Entries) { forall k :: k in e ==> Representable(e[k]) }

  lemma {:induction false} EdgesAreRepresentable(edges: seq<CargoReference.Identity>)
    ensures Representable(EdgesToml(edges))
  {
    hide Sort, IdentityLeq;
    var items := EdgesToml(edges).items;
    forall i | 0 <= i < |items| ensures Representable(items[i]) {
      var three := items[i].items;
      assert |three| == 3 && three[0].Text? && three[1].Text? && three[2].Text?;
    }
  }

  lemma {:induction false} EntryIsRepresentable(n: Node, edges: seq<CargoReference.Identity>)
    ensures Representable(Table(EntryOf(n, edges).record)) <==> AllRepresentable(Fields(n))
  {
    hide EdgesToml, Representable;
    EdgesAreRepresentable(edges);
    var (fields, record) := (Fields(n), EntryOf(n, edges).record);
    TableIsRepresentable(record);
    assert "dependencies" !in fields;
    assert forall k :: k in record <==> k in fields || k == "dependencies";
    assert forall k :: k in fields ==> record[k] == fields[k];
  }

  lemma {:induction false} TableIsRepresentable(e: Entries)
    ensures Representable(Table(e)) <==> AllRepresentable(e)
  {
  }

  lemma {:induction false} RecordsAreRepresentable(es: seq<CargoGraph.Entry>)
    ensures Representable(Records(es)) <==> forall e :: e in es ==> Representable(Table(e.record))
  {
    var items := Records(es).items;
    assert forall i :: 0 <= i < |es| ==> items[i] == Table(es[i].record);
    if Representable(Records(es)) {
      forall e | e in es ensures Representable(Table(e.record)) {
        var i :| 0 <= i < |es| && es[i] == e;
        assert Representable(items[i]);
      }
    }
  }

  lemma {:induction false} GraphIsRepresentable(lock: Entries)
    requires Graph(lock).Ok?
    ensures Nodes(lock).Ok?
    ensures Representable(Table(Graph(lock).value)) <==>
            && (forall k :: k in lock && k != "package" ==> Representable(lock[k]))
            && (forall n :: n in Nodes(lock).value ==> AllRepresentable(Fields(n)))
  {
    var nodes := Nodes(lock).value;
    var entries := AllEntries(nodes, Keys(nodes)).value;
    var (g, sorted) := (Graph(lock).value, Sort(entries, EntryLeq));
    assert g["package"] == Records(sorted) && g.Keys == lock.Keys;
    assert forall k :: k in lock && k != "package" ==> g[k] == lock[k];
    hide Nodes, AllEntries, Graph, Sort, Records, Representable, Keys, Fields;
    TableIsRepresentable(g);
    RecordsAreRepresentable(sorted);
    EntryLeqIsTotalPreorder();
    SortSorts(entries, EntryLeq);
    forall e ensures e in sorted <==> e in entries {
      assert e in sorted <==> e in multiset(sorted);
      assert e in entries <==> e in multiset(entries);
    }
    EntriesAreRepresentable(nodes, Keys(nodes));
  }

  lemma {:induction false} EntriesAreRepresentable(nodes: seq<Node>, ks: seq<CargoReference.Key>)
    requires AllEntries(nodes, ks).Ok?
    ensures (forall e :: e in AllEntries(nodes, ks).value ==> Representable(Table(e.record)))
       <==> (forall n :: n in nodes ==> AllRepresentable(Fields(n)))
  {
    hide Representable, Fields, Edges, EntryOf;
    if nodes != [] {
      var (n, rest) := (nodes[0], nodes[1..]);
      EntriesAreRepresentable(rest, ks);
      var edges := Edges(n.dependencies, ks).value;
      EntryIsRepresentable(n, edges);
      var (first, more) := (EntryOf(n, edges), AllEntries(rest, ks).value);
      assert AllEntries(nodes, ks).value == [first] + more && nodes == [n] + rest;
      assert forall e :: e in [first] + more <==> e == first || e in more;
      assert forall m :: m in [n] + rest <==> m == n || m in rest;
    }
  }

  /** There is a key exactly when the lock has a graph and neither it nor a field of a package that enters the key is, or
      holds, a date or time; and reading its text gives back the payload. */
  lemma {:induction false} KeyTextOkIff(lock: Entries, flake: Json, pins: seq<string>)
    requires Valid(flake)
    ensures KeyText(lock, flake, pins).Ok? <==>
            && Graph(lock).Ok? && Nodes(lock).Ok?
            && (forall k :: k in lock && k != "package" ==> Representable(lock[k]))
            && (forall n :: n in Nodes(lock).value ==> AllRepresentable(Fields(n)))
    ensures KeyText(lock, flake, pins).Ok? ==>
              JsonReader.ReadValue(KeyText(lock, flake, pins).value) == Some((Payload(Graph(lock).value, flake, pins), ""))
  {
    hide Graph, Nodes, Representable, Payload, Fields, AllRepresentable, JsonReader.ReadValue;
    if Graph(lock).Ok? {
      GraphIsRepresentable(lock);
      var g := Graph(lock).value;
      if Representable(Table(g)) {
        PayloadValid(g, flake, pins);
        JsonReader.RoundTrip(Payload(g, flake, pins), "");
        assert Dump(Payload(g, flake, pins)) + "" == Dump(Payload(g, flake, pins));
      }
    }
  }

  ghost predicate SamePins(p: seq<string>, q: seq<string>) {
    |p| == |q| && forall i :: 0 <= i < |p| ==> SameButReturns(p[i], q[i])
  }

  lemma {:induction false} PinsDecide(p: seq<string>, q: seq<string>)
    ensures UnixAll(p) == UnixAll(q) <==> SamePins(p, q)
  {
    hide Unix, SameButReturns;
    forall i | 0 <= i < |p| && i < |q| ensures Unix(p[i]) == Unix(q[i]) <==> SameButReturns(p[i], q[i]) {
      UnixDecides(p[i], q[i]);
    }
    if UnixAll(p) == UnixAll(q) {
      forall i | 0 <= i < |p| ensures SameButReturns(p[i], q[i]) {
        assert UnixAll(p)[i] == UnixAll(q)[i];
      }
    }
  }

  /** Two keys hash the same text exactly when the graphs, the flake locks and, up to the line ends, the pins are equal. */
  lemma {:induction false} KeyTextDecides(a: Entries, f: Json, p: seq<string>, b: Entries, g: Json, q: seq<string>)
    requires Valid(f) && Valid(g) && KeyText(a, f, p).Ok? && KeyText(b, g, q).Ok?
    ensures KeyText(a, f, p) == KeyText(b, g, q) <==> Graph(a) == Graph(b) && f == g && SamePins(p, q)
  {
    hide Graph, KeyText, SamePins, UnixAll;
    KeyTextByUnix(a, f, p, b, g, q);
    PinsDecide(p, q);
  }

  /** So another pin without '\r' is another text. */
  lemma {:induction false} PinsCount(a: Entries, f: Json, p: seq<string>, q: seq<string>)
    requires Valid(f) && KeyText(a, f, p).Ok? && KeyText(a, f, q).Ok?
    requires forall i :: 0 <= i < |p| ==> '\r' !in p[i]
    requires forall i :: 0 <= i < |q| ==> '\r' !in q[i]
    ensures KeyText(a, f, p) == KeyText(a, f, q) <==> p == q
  {
    hide Graph, KeyText, Unix;
    KeyTextByUnix(a, f, p, a, f, q);
    PlainPinsAreKept(p);
    PlainPinsAreKept(q);
  }

  lemma {:induction false} PlainPinsAreKept(pins: seq<string>)
    requires forall i :: 0 <= i < |pins| ==> '\r' !in pins[i]
    ensures UnixAll(pins) == pins
  {
    hide Unix;
    forall i | 0 <= i < |pins| ensures Unix(pins[i]) == pins[i] {
      PlainIsKept(pins[i]);
    }
  }

  lemma {:induction false} KeyTextByUnix(a: Entries, f: Json, p: seq<string>, b: Entries, g: Json, q: seq<string>)
    requires Valid(f) && Valid(g) && KeyText(a, f, p).Ok? && KeyText(b, g, q).Ok?
    ensures KeyText(a, f, p) == KeyText(b, g, q) <==> Graph(a) == Graph(b) && f == g && UnixAll(p) == UnixAll(q)
  {
    var (x, y) := (Graph(a).value, Graph(b).value);
    hide Graph, JsonOf, Representable;
    PayloadValid(x, f, p);
    PayloadValid(y, g, q);
    if KeyText(a, f, p) == KeyText(b, g, q) {
      var (v, w) := (Payload(x, f, p), Payload(y, g, q));
      assert Dump(v) + "" == Dump(v) && Dump(w) + "" == Dump(w);
      DumpUnique(v, w, "", "");
      PayloadInjective(x, f, p, y, g, q);
    }
    if UnixAll(p) == UnixAll(q) {
      assert |p| == |q|;
    }
  }

  /** So the hashed text of a lock that Cargo wrote changes exactly when something other than local versions, package
      order, dependency order and spelling changes. */
  lemma {:induction false} ReleaseKeepsKey(ps: seq<Package>, qs: seq<Package>, rest: Entries, rest': Entries, flake: Json, pins: seq<string>)
    requires WellFormed(ps) && WellFormed(qs) && "package" !in rest && "package" !in rest' && Valid(flake)
    requires KeyText(WrittenLock(ps, rest), flake, pins).Ok? && KeyText(WrittenLock(qs, rest'), flake, pins).Ok?
    ensures KeyText(WrittenLock(ps, rest), flake, pins) == KeyText(WrittenLock(qs, rest'), flake, pins)
       <==> rest == rest' && SamePackages(ps, qs)
  {
    hide WellFormed, WrittenLock, Graph, SamePackages, KeyText;
    KeyTextByUnix(WrittenLock(ps, rest), flake, pins, WrittenLock(qs, rest'), flake, pins);
    ReleaseKeepsGraph(ps, qs, rest, rest');
  }
}
