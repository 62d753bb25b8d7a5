/** JSON values and the text that `json.dumps` writes for them, with compact separators. */
module Json {

  /** A number is known by the text it is written as. An object keeps its insertion order. */
  datatype Json = Null | Bool(b: bool) | Num(token: string) | Str(s: string) | Arr(items: seq<Json>) | Obj(fields: seq<Field>)
  datatype Field = Field(key: string, value: Json)

  predicate NumStart(c: char) { '0' <= c <= '9' || c == '-' || c == 'N' || c == 'I' }

  predicate Delimiter(c: char) { c == ',' || c == ']' || c == '}' || c == ':' }

  predicate IsNumber(t: string) {
    t != [] && NumStart(t[0]) && forall i :: 0 <= i < |t| ==> !Delimiter(t[i])
  }

  ghost predicate DistinctKeys(fields: seq<Field>) {
    forall i, j :: 0 <= i < j < |fields| ==> fields[i].key != fields[j].key
  }

  ghost predicate Valid(v: Json) {
    match v
    case Num(t) => IsNumber(t)
    case Arr(items) => forall i :: 0 <= i < |items| ==> Valid(items[i])
    case Obj(fields) => DistinctKeys(fields) && forall i :: 0 <= i < |fields| ==> Valid(fields[i].value)
    case _ => true
  }

  // ---------------------------------------------------------------- strings

  function HexDigit(d: nat): char
    requires d < 16
  {
    if d < 10 then '0' + d as char else 'a' + (d - 10) as char
  }

  function Hex4(n: nat): (h: string)
    requires n < 0x1_0000
    ensures |h| == 4
  {
    [HexDigit(n / 0x1000), HexDigit(n / 0x100 % 16), HexDigit(n / 16 % 16), HexDigit(n % 16)]
  }

  /** The letter after the backslash of a two-character escape, or a space. */
  function ShortEscape(c: char): char {
    if c == '"' then '"' else if c == '\\' then '\\' else if c == '\n' then 'n' else if c == '\r' then 'r'
    else if c == '\t' then 't' else if c == '\U{0C}' then 'f' else if c == '\U{08}' then 'b' else ' '
  }

  /** What `ensure_ascii` writes for one character; a character beyond 16 bits is a surrogate pair. */
  function Escape(c: char): string {
    if ' ' <= c <= '~' && c != '"' && c != '\\' then [c]
    else if ShortEscape(c) != ' ' then ['\\', ShortEscape(c)]
    else if c as int < 0x1_0000 then "\\u" + Hex4(c as int)
    else
      var n := c as int - 0x1_0000;
      "\\u" + Hex4(0xD800 + n / 0x400) + "\\u" + Hex4(0xDC00 + n % 0x400)
  }

  function EscapeAll(s: string): string {
    if s == [] then "" else Escape(s[0]) + EscapeAll(s[1..])
  }

  /** A string with its closing quote; `DumpString` adds the opening one. */
  function Quoted(s: string): string { EscapeAll(s) + "\"" }

  function DumpString(s: string): string { "\"" + Quoted(s) }

  lemma {:induction false} HexDigitInjective(a: nat, b: nat)
    requires a < 16 && b < 16 && HexDigit(a) == HexDigit(b)
    ensures a == b
  {
  }

  lemma {:induction false} Hex4Injective(m: nat, n: nat)
    requires m < 0x1_0000 && n < 0x1_0000 && Hex4(m) == Hex4(n)
    ensures m == n
  {
    var (g, h) := (Hex4(m), Hex4(n));
    assert g[0] == h[0] && g[1] == h[1] && g[2] == h[2] && g[3] == h[3];
    hide HexDigit;
    HexDigitInjective(m / 0x1000, n / 0x1000);
    HexDigitInjective(m / 0x100 % 16, n / 0x100 % 16);
    HexDigitInjective(m / 16 % 16, n / 16 % 16);
    HexDigitInjective(m % 16, n % 16);
    HexValue(m);
    HexValue(n);
  }

  lemma {:induction false} HexValue(n: nat)
    ensures n == 0x1000 * (n / 0x1000) + 0x100 * (n / 0x100 % 16) + 16 * (n / 16 % 16) + n % 16
  {
    var (a, b) := (n / 16, n / 0x100);
    assert a == 16 * b + a % 16;
    assert b == 16 * (n / 0x1000) + b % 16;
  }

  /** The first 16-bit unit written for a character that needs a `\\u` escape. */
  function FirstUnit(c: char): (n: nat)
    ensures n < 0x1_0000
  {
    if c as int < 0x1_0000 then c as int else 0xD800 + (c as int - 0x1_0000) / 0x400
  }

  predicate Plain(c: char) { ' ' <= c <= '~' && c != '"' && c != '\\' }

  /** How an escape begins. */
  lemma {:induction false} EscapeStarts(c: char)
    ensures Plain(c) ==> Escape(c) == [c]
    ensures !Plain(c) && ShortEscape(c) != ' ' ==> Escape(c) == ['\\', ShortEscape(c)] && ShortEscape(c) != 'u'
    ensures !Plain(c) && ShortEscape(c) == ' ' ==>
              && Escape(c)[..2] == "\\u" && Escape(c)[2..6] == Hex4(FirstUnit(c))
              && (c as int >= 0x1_0000 ==> |Escape(c)| == 12 && Escape(c)[8..12] == Hex4(0xDC00 + (c as int - 0x1_0000) % 0x400))
              && (c as int < 0x1_0000 ==> |Escape(c)| == 6)
  {
    hide Hex4;
  }

  /** Equal continuations after escapes that start with `\\u` come from the same character. */
  lemma {:induction false} LongEscapeUnique(c: char, d: char, x: string, y: string)
    requires !Plain(c) && ShortEscape(c) == ' ' && !Plain(d) && ShortEscape(d) == ' '
    requires Escape(c) + x == Escape(d) + y
    ensures c == d
  {
    EscapeStarts(c);
    EscapeStarts(d);
    hide Escape, Hex4, ShortEscape, Plain;
    var (l, r) := (Escape(c) + x, Escape(d) + y);
    assert l[2..6] == Escape(c)[2..6] && r[2..6] == Escape(d)[2..6];
    Hex4Injective(FirstUnit(c), FirstUnit(d));
    if c as int >= 0x1_0000 && d as int >= 0x1_0000 {
      assert l[8..12] == Escape(c)[8..12] && r[8..12] == Escape(d)[8..12];
      var (m, n) := (c as int - 0x1_0000, d as int - 0x1_0000);
      Hex4Injective(0xDC00 + m % 0x400, 0xDC00 + n % 0x400);
      assert m == m / 0x400 * 0x400 + m % 0x400 && n == n / 0x400 * 0x400 + n % 0x400;
    }
  }

  lemma {:induction false} EscapeUnique(c: char, d: char, x: string, y: string)
    requires Escape(c) + x == Escape(d) + y
    ensures c == d && x == y
  {
    var (l, r) := (Escape(c) + x, Escape(d) + y);
    EscapeStarts(c);
    EscapeStarts(d);
    hide Escape;
    assert l[0] == Escape(c)[0] && r[0] == Escape(d)[0];
    if !Plain(c) && !Plain(d) {
      assert l[1] == Escape(c)[1] && r[1] == Escape(d)[1];
      if ShortEscape(c) == ' ' && ShortEscape(d) == ' ' {
        LongEscapeUnique(c, d, x, y);
      }
    }
    assert x == l[|Escape(c)|..] && y == r[|Escape(d)|..];
  }

  /** A quoted string ends where it ends: nothing that follows can be read as part of it. */
  lemma {:induction false} QuotedUnique(s: string, t: string, x: string, y: string)
    requires Quoted(s) + x == Quoted(t) + y
    ensures s == t && x == y
  {
    hide Escape;
    if s == [] || t == [] {
      if s != [] { QuotedStarts(s, x); }
      if t != [] { QuotedStarts(t, y); }
      EmptyQuoted(x);
      EmptyQuoted(y);
    } else {
      assert Quoted(s) + x == Escape(s[0]) + (Quoted(s[1..]) + x);
      assert Quoted(t) + y == Escape(t[0]) + (Quoted(t[1..]) + y);
      EscapeUnique(s[0], t[0], Quoted(s[1..]) + x, Quoted(t[1..]) + y);
      QuotedUnique(s[1..], t[1..], x, y);
      assert s == [s[0]] + s[1..] && t == [t[0]] + t[1..];
    }
  }

  lemma {:induction false} QuotedStarts(s: string, x: string)
    requires s != []
    ensures (Quoted(s) + x)[0] != '"'
  {
    EscapeStarts(s[0]);
    hide Escape;
    assert (Quoted(s) + x)[0] == Escape(s[0])[0];
  }

  lemma {:induction false} EmptyQuoted(x: string)
    ensures (Quoted("") + x)[0] == '"' && (Quoted("") + x)[1..] == x
  {
  }

  // ---------------------------------------------------------------- values

  function Dump(v: Json): string
    decreases v, 0
  {
    match v
    case Null => "null"
    case Bool(b) => if b then "true" else "false"
    case Num(t) => t
    case Str(s) => DumpString(s)
    case Arr(items) => "[" + DumpItems(items, true)
    case Obj(fields) => "{" + DumpFields(fields, true)
  }

  /** The rest of an array, from an item or the closing bracket. */
  function DumpItems(items: seq<Json>, first: bool): string
    decreases items, 1
  {
    if items == [] then "]"
    else (if first then "" else ",") + (Dump(items[0]) + DumpItems(items[1..], false))
  }

  function DumpFields(fields: seq<Field>, first: bool): string
    decreases fields, 1
  {
    if fields == [] then "}"
    else (if first then "" else ",") + (DumpField(fields[0]) + DumpFields(fields[1..], false))
  }

  function DumpField(f: Field): string
    decreases f, 0
  {
    DumpString(f.key) + ":" + Dump(f.value)
  }

  /** `rest` may follow a value: it is empty or starts with a delimiter. */
  predicate Follows(rest: string) { rest == [] || Delimiter(rest[0]) }

  lemma {:induction false} DumpStarts(v: Json)
    requires Valid(v)
    ensures Dump(v) != [] && !Delimiter(Dump(v)[0])
    ensures match v
      case Null => Dump(v)[0] == 'n'
      case Bool(b) => Dump(v)[0] == if b then 't' else 'f'
      case Num(_) => NumStart(Dump(v)[0])
      case Str(_) => Dump(v)[0] == '"'
      case Arr(_) => Dump(v)[0] == '['
      case Obj(_) => Dump(v)[0] == '{'
  {
    hide DumpItems, DumpFields, Quoted;
  }

  lemma {:induction false} TokenUnique(s: string, t: string, x: string, y: string)
    requires IsNumber(s) && IsNumber(t) && Follows(x) && Follows(y) && s + x == t + y
    ensures s == t && x == y
  {
    var (l, r) := (s + x, t + y);
    assert s == l[..|s|] && t == r[..|t|] && x == l[|s|..] && y == r[|t|..];
  }

  /** Dropping equal first characters. */
  lemma {:induction false} Behead(p: char, s: string, t: string, x: string, y: string)
    requires ([p] + s) + x == ([p] + t) + y
    ensures s + x == t + y
  {
    assert s + x == (([p] + s) + x)[1..] && t + y == (([p] + t) + y)[1..];
  }

  /** The text of a value determines the value and where its text ends. */
  lemma {:induction false} DumpUnique(v: Json, w: Json, x: string, y: string)
    requires Valid(v) && Valid(w) && Follows(x) && Follows(y) && Dump(v) + x == Dump(w) + y
    ensures v == w && x == y
    decreases v, 0
  {
    hide Quoted, DumpItems, DumpFields, IsNumber;
    DumpStarts(v);
    DumpStarts(w);
    assert (Dump(v) + x)[0] == Dump(v)[0] && (Dump(w) + y)[0] == Dump(w)[0];
    match v
    case Null => assert x == (Dump(v) + x)[4..] && y == (Dump(w) + y)[4..];
    case Bool(b) => assert x == (Dump(v) + x)[|Dump(v)|..] && y == (Dump(w) + y)[|Dump(w)|..];
    case Num(t) => TokenUnique(t, w.token, x, y);
    case Str(s) =>
      Behead('"', Quoted(s), Quoted(w.s), x, y);
      QuotedUnique(s, w.s, x, y);
    case Arr(items) =>
      Behead('[', DumpItems(items, true), DumpItems(w.items, true), x, y);
      DumpItemsUnique(items, w.items, true, x, y);
    case Obj(fields) =>
      Behead('{', DumpFields(fields, true), DumpFields(w.fields, true), x, y);
      DumpFieldsUnique(fields, w.fields, true, x, y);
  }

  lemma {:induction false} DumpItemsUnique(a: seq<Json>, b: seq<Json>, first: bool, x: string, y: string)
    requires (forall i :: 0 <= i < |a| ==> Valid(a[i])) && (forall i :: 0 <= i < |b| ==> Valid(b[i]))
    requires DumpItems(a, first) + x == DumpItems(b, first) + y
    ensures a == b && x == y
    decreases a, 1
  {
    hide Dump, Valid;
    var (l, r) := (DumpItems(a, first) + x, DumpItems(b, first) + y);
    if a != [] { DumpStarts(a[0]); ItemsStart(a, first, x); }
    if b != [] { DumpStarts(b[0]); ItemsStart(b, first, y); }
    if a == [] || b == [] {
      assert l[0] == r[0];
      assert x == l[1..] && y == r[1..];
    } else {
      ItemsTail(a, b, first, x, y);
      DumpUnique(a[0], b[0], DumpItems(a[1..], false) + x, DumpItems(b[1..], false) + y);
      DumpItemsUnique(a[1..], b[1..], false, x, y);
      assert a == [a[0]] + a[1..] && b == [b[0]] + b[1..];
    }
  }

  lemma {:induction false} ItemsStart(a: seq<Json>, first: bool, x: string)
    requires a != [] && Dump(a[0]) != []
    ensures (DumpItems(a, first) + x)[0] == if first then Dump(a[0])[0] else ','
  {
    hide Dump;
  }

  lemma {:induction false} ItemsTail(a: seq<Json>, b: seq<Json>, first: bool, x: string, y: string)
    requires a != [] && b != [] && DumpItems(a, first) + x == DumpItems(b, first) + y
    ensures Dump(a[0]) + (DumpItems(a[1..], false) + x) == Dump(b[0]) + (DumpItems(b[1..], false) + y)
    ensures Follows(DumpItems(a[1..], false) + x) && Follows(DumpItems(b[1..], false) + y)
  {
    hide Dump;
    var p := if first then "" else ",";
    Reassociate(p, Dump(a[0]), DumpItems(a[1..], false), x);
    Reassociate(p, Dump(b[0]), DumpItems(b[1..], false), y);
    DropPrefix(p, Dump(a[0]) + (DumpItems(a[1..], false) + x), Dump(b[0]) + (DumpItems(b[1..], false) + y));
  }

  lemma {:induction false} Reassociate(p: string, a: string, b: string, x: string)
    ensures (p + (a + b)) + x == p + (a + (b + x))
  {
  }

  lemma {:induction false} DropPrefix(p: string, s: string, t: string)
    requires p + s == p + t
    ensures s == t
  {
    assert s == (p + s)[|p|..] && t == (p + t)[|p|..];
  }

  lemma {:induction false} DumpFieldsUnique(a: seq<Field>, b: seq<Field>, first: bool, x: string, y: string)
    requires (forall i :: 0 <= i < |a| ==> Valid(a[i].value)) && (forall i :: 0 <= i < |b| ==> Valid(b[i].value))
    requires DumpFields(a, first) + x == DumpFields(b, first) + y
    ensures a == b && x == y
    decreases a, 1
  {
    hide Dump, Valid, Quoted;
    var (l, r) := (DumpFields(a, first) + x, DumpFields(b, first) + y);
    if a != [] { FieldsStart(a, first, x); }
    if b != [] { FieldsStart(b, first, y); }
    if a == [] || b == [] {
      assert l[0] == r[0];
      assert x == l[1..] && y == r[1..];
    } else {
      FieldsTail(a, b, first, x, y);
      DumpFieldUnique(a[0], b[0], DumpFields(a[1..], false) + x, DumpFields(b[1..], false) + y);
      DumpFieldsUnique(a[1..], b[1..], false, x, y);
      assert a == [a[0]] + a[1..] && b == [b[0]] + b[1..];
    }
  }

  lemma {:induction false} FieldsStart(a: seq<Field>, first: bool, x: string)
    requires a != []
    ensures DumpFields(a, first) != [] && (DumpFields(a, first) + x)[0] == if first then '"' else ','
  {
    hide Dump, Quoted;
  }

  lemma {:induction false} FieldsTail(a: seq<Field>, b: seq<Field>, first: bool, x: string, y: string)
    requires a != [] && b != [] && DumpFields(a, first) + x == DumpFields(b, first) + y
    ensures DumpField(a[0]) + (DumpFields(a[1..], false) + x) == DumpField(b[0]) + (DumpFields(b[1..], false) + y)
    ensures Follows(DumpFields(a[1..], false) + x) && Follows(DumpFields(b[1..], false) + y)
  {
    hide DumpField;
    var p := if first then "" else ",";
    Reassociate(p, DumpField(a[0]), DumpFields(a[1..], false), x);
    Reassociate(p, DumpField(b[0]), DumpFields(b[1..], false), y);
    DropPrefix(p, DumpField(a[0]) + (DumpFields(a[1..], false) + x), DumpField(b[0]) + (DumpFields(b[1..], false) + y));
  }

  lemma {:induction false} DumpFieldUnique(f: Field, g: Field, x: string, y: string)
    requires Valid(f.value) && Valid(g.value) && Follows(x) && Follows(y) && DumpField(f) + x == DumpField(g) + y
    ensures f == g && x == y
    decreases f, 0
  {
    hide Dump, Valid, Quoted;
    var (k, m) := (Quoted(f.key), Quoted(g.key));
    assert DumpField(f) + x == ("\"" + k) + (":" + Dump(f.value) + x);
    assert DumpField(g) + y == ("\"" + m) + (":" + Dump(g.value) + y);
    Behead('"', k, m, ":" + Dump(f.value) + x, ":" + Dump(g.value) + y);
    QuotedUnique(f.key, g.key, ":" + Dump(f.value) + x, ":" + Dump(g.value) + y);
    assert ":" + Dump(f.value) + x == ":" + (Dump(f.value) + x) && ":" + Dump(g.value) + y == ":" + (Dump(g.value) + y);
    DropPrefix(":", Dump(f.value) + x, Dump(g.value) + y);
    DumpUnique(f.value, g.value, x, y);
  }
}
