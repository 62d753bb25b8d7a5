/** A reader of compact JSON text after RFC 8259, which reads back every value that was written. */
module JsonReader {
  import opened Collections
  import opened Json

  // ---------------------------------------------------------------- strings, after section 7

  function HexOf(c: char): Option<nat> {
    if '0' <= c <= '9' then Some(c as int - '0' as int)
    else if 'a' <= c <= 'f' then Some(c as int - 'a' as int + 10)
    else if 'A' <= c <= 'F' then Some(c as int - 'A' as int + 10)
    else None
  }

  /** The 16-bit unit that four hexadecimal digits name. */
  function UnitAt(t: string, at: nat): Option<nat> {
    if at + 4 > |t| then None
    else
      match (HexOf(t[at]), HexOf(t[at + 1]), HexOf(t[at + 2]), HexOf(t[at + 3]))
      case (Some(a), Some(b), Some(c), Some(d)) => Some(0x1000 * a + 0x100 * b + 0x10 * c + d)
      case _ => None
  }

  /** What the letter after a backslash stands for. */
  function Named(c: char): Option<char> {
    match c
    case '"' => Some('"')
    case '\\' => Some('\\')
    case '/' => Some('/')
    case 'b' => Some(8 as char)
    case 'f' => Some(12 as char)
    case 'n' => Some(10 as char)
    case 'r' => Some(13 as char)
    case 't' => Some(9 as char)
    case _ => None
  }

  predicate IsScalar(n: int) { 0 <= n < 0xD800 || 0xE000 <= n < 0x11_0000 }

  /** One character and how long its text is: itself, a named escape, a unit, or a pair of surrogates. */
  function ReadChar(t: string): (r: Option<(char, nat)>)
    ensures r.Some? ==> 0 < r.value.1 <= |t|
  {
    if t == [] || t[0] < ' ' || t[0] == '"' then None
    else if t[0] != '\\' then Some((t[0], 1))
    else if |t| < 2 then None
    else if t[1] != 'u' then (match Named(t[1]) case None => None case Some(c) => Some((c, 2)))
    else
      match UnitAt(t, 2)
      case None => None
      case Some(n) =>
        if IsScalar(n) then Some((n as char, 6))
        else if 0xD800 <= n < 0xDC00 && |t| >= 12 && t[6] == '\\' && t[7] == 'u' then
          match UnitAt(t, 8)
          case None => None
          case Some(m) =>
            if 0xDC00 <= m < 0xE000 then Some(((0x1_0000 + (n - 0xD800) * 0x400 + (m - 0xDC00)) as char, 12)) else None
        else None
  }

  /** The characters up to the closing quote, and what follows it. */
  function ReadChars(t: string): (r: Option<(string, string)>)
    ensures r.Some? ==> |r.value.1| < |t|
  {
    if t != [] && t[0] == '"' then Some(("", t[1..]))
    else
      match ReadChar(t)
      case None => None
      case Some((c, n)) =>
        match ReadChars(t[n..])
        case None => None
        case Some((s, rest)) => Some(([c] + s, rest))
  }

  // ---------------------------------------------------------------- values, after sections 3 to 6

  function TokenEnd(t: string): (n: nat)
    ensures n <= |t| && (n < |t| ==> Delimiter(t[n])) && forall i :: 0 <= i < n ==> !Delimiter(t[i])
  {
    if t == [] || Delimiter(t[0]) then 0 else 1 + TokenEnd(t[1..])
  }

  /** A value and what follows it. A number is read as its text, up to a delimiter. */
  function ReadValue(t: string): (r: Option<(Json, string)>)
    ensures r.Some? ==> |r.value.1| < |t|
    decreases |t|, 0
  {
    if t == [] then None
    else if "null" <= t then Some((Null, t[4..]))
    else if "true" <= t then Some((Bool(true), t[4..]))
    else if "false" <= t then Some((Bool(false), t[5..]))
    else if t[0] == '"' then
      (match ReadChars(t[1..]) case None => None case Some((s, rest)) => Some((Str(s), rest)))
    else if t[0] == '[' then
      (match ReadItems(t[1..], true) case None => None case Some((items, rest)) => Some((Arr(items), rest)))
    else if t[0] == '{' then
      (match ReadFields(t[1..], true) case None => None case Some((fields, rest)) => Some((Obj(fields), rest)))
    else if NumStart(t[0]) then Some((Num(t[..TokenEnd(t)]), t[TokenEnd(t)..]))
    else None
  }

  /** The items up to the closing bracket; a comma comes before each but the first. */
  function ReadItems(t: string, first: bool): (r: Option<(seq<Json>, string)>)
    ensures r.Some? ==> |r.value.1| < |t|
    decreases |t|, 1
  {
    if t == [] then None
    else if t[0] == ']' then Some(([], t[1..]))
    else if !first && t[0] != ',' then None
    else
      match ReadValue(if first then t else t[1..])
      case None => None
      case Some((v, more)) =>
        match ReadItems(more, false)
        case None => None
        case Some((items, rest)) => Some(([v] + items, rest))
  }

  function ReadField(t: string): (r: Option<(Field, string)>)
    ensures r.Some? ==> |r.value.1| < |t|
    decreases |t|, 0
  {
    if t == [] || t[0] != '"' then None
    else
      match ReadChars(t[1..])
      case None => None
      case Some((key, more)) =>
        if more == [] || more[0] != ':' then None
        else
          match ReadValue(more[1..])
          case None => None
          case Some((v, rest)) => Some((Field(key, v), rest))
  }

  function ReadFields(t: string, first: bool): (r: Option<(seq<Field>, string)>)
    ensures r.Some? ==> |r.value.1| < |t|
    decreases |t|, 1
  {
    if t == [] then None
    else if t[0] == '}' then Some(([], t[1..]))
    else if !first && t[0] != ',' then None
    else
      match ReadField(if first then t else t[1..])
      case None => None
      case Some((f, more)) =>
        match ReadFields(more, false)
        case None => None
        case Some((fields, rest)) => Some(([f] + fields, rest))
  }

  // ---------------------------------------------------------------- reading undoes writing

  lemma {:induction false} ReadsHexDigit(d: nat)
    requires d < 16
    ensures HexOf(HexDigit(d)) == Some(d)
  {
  }

  lemma {:induction false} ReadsHex4(n: nat, t: string, at: nat)
    requires n < 0x1_0000 && at + 4 <= |t| && t[at..at + 4] == Hex4(n)
    ensures UnitAt(t, at) == Some(n)
  {
    hide HexDigit, HexOf;
    var h := Hex4(n);
    assert t[at] == t[at..at + 4][0] && t[at + 1] == t[at..at + 4][1] && t[at + 2] == t[at..at + 4][2] && t[at + 3] == t[at..at + 4][3];
    ReadsHexDigit(n / 0x1000);
    ReadsHexDigit(n / 0x100 % 16);
    ReadsHexDigit(n / 16 % 16);
    ReadsHexDigit(n % 16);
    HexValue(n);
  }

  lemma {:induction false} ReadsShort(c: char)
    requires ShortEscape(c) != ' '
    ensures Named(ShortEscape(c)) == Some(c) && ShortEscape(c) != 'u'
  {
  }

  /** Every escape is read as its character, whatever follows. */
  lemma {:induction false} ReadsEscape(c: char, rest: string)
    ensures ReadChar(Escape(c) + rest) == Some((c, |Escape(c)|)) && (Escape(c) + rest)[0] != '"'
  {
    EscapeStarts(c);
    var t := Escape(c) + rest;
    if Plain(c) {
    } else if ShortEscape(c) != ' ' {
      ReadsShort(c);
    } else {
      ReadsLong(c, rest);
    }
  }

  lemma {:induction false} ReadsLong(c: char, rest: string)
    requires !Plain(c) && ShortEscape(c) == ' '
    ensures ReadChar(Escape(c) + rest) == Some((c, |Escape(c)|)) && (Escape(c) + rest)[0] == '\\'
  {
    hide Hex4, UnitAt;
    var (t, n) := (Escape(c) + rest, c as int - 0x1_0000);
    if c as int < 0x1_0000 {
      assert t[0] == '\\' && t[1] == 'u' && t[2..6] == Hex4(c as int);
      ReadsHex4(c as int, t, 2);
    } else {
      var (high, low) := (0xD800 + n / 0x400, 0xDC00 + n % 0x400);
      assert t[0] == '\\' && t[1] == 'u' && t[2..6] == Hex4(high) && t[6] == '\\' && t[7] == 'u' && t[8..12] == Hex4(low);
      ReadsHex4(high, t, 2);
      ReadsHex4(low, t, 8);
      assert n == n / 0x400 * 0x400 + n % 0x400;
    }
  }

  lemma {:induction false} ReadsQuoted(s: string, rest: string)
    ensures ReadChars(Quoted(s) + rest) == Some((s, rest))
  {
    hide Escape, ReadChar;
    if s == [] {
      EmptyQuoted(rest);
    } else {
      var tail := Quoted(s[1..]) + rest;
      assert Quoted(s) + rest == Escape(s[0]) + tail;
      ReadsEscape(s[0], tail);
      assert (Escape(s[0]) + tail)[|Escape(s[0])|..] == tail;
      ReadsQuoted(s[1..], rest);
      assert [s[0]] + s[1..] == s;
    }
  }

  lemma {:induction false} ReadsToken(token: string, rest: string)
    requires IsNumber(token) && Follows(rest)
    ensures ReadValue(token + rest) == Some((Num(token), rest))
  {
    var t := token + rest;
    assert t[0] == token[0];
    assert forall i :: 0 <= i < |token| ==> !Delimiter(t[i]);
    assert rest != [] ==> t[|token|] == rest[0];
    assert TokenEnd(t) == |token|;
    assert t[..|token|] == token && t[|token|..] == rest;
  }

  /** Reading the text of a value gives the value, and stops where the text ends. */
  lemma {:induction false} RoundTrip(v: Json, rest: string)
    requires Valid(v) && Follows(rest)
    ensures ReadValue(Dump(v) + rest) == Some((v, rest))
    decreases v, 0
  {
    hide Quoted, DumpItems, DumpFields, IsNumber, ReadItems, ReadFields, ReadChars;
    var t := Dump(v) + rest;
    match v
    case Null => assert t[..4] == "null" && t[4..] == rest;
    case Bool(b) =>
      assert t[0] == (if b then 't' else 'f') && t[|Dump(v)|..] == rest;
      assert Dump(v) <= t;
    case Num(token) => ReadsToken(token, rest);
    case Str(s) =>
      assert t[0] == '"' && t[1..] == Quoted(s) + rest;
      ReadsQuoted(s, rest);
    case Arr(items) =>
      assert t[0] == '[' && t[1..] == DumpItems(items, true) + rest;
      ItemsRoundTrip(items, true, rest);
    case Obj(fields) =>
      assert t[0] == '{' && t[1..] == DumpFields(fields, true) + rest;
      FieldsRoundTrip(fields, true, rest);
  }

  lemma {:induction false} ItemsRoundTrip(items: seq<Json>, first: bool, rest: string)
    requires forall i :: 0 <= i < |items| ==> Valid(items[i])
    ensures ReadItems(DumpItems(items, first) + rest, first) == Some((items, rest))
    decreases items, 1
  {
    hide Dump, Valid, ReadValue;
    var t := DumpItems(items, first) + rest;
    if items == [] {
      assert t[0] == ']' && t[1..] == rest;
    } else {
      var (p, more) := (if first then "" else ",", DumpItems(items[1..], false) + rest);
      DumpStarts(items[0]);
      Reassociate(p, Dump(items[0]), DumpItems(items[1..], false), rest);
      assert (if first then t else t[1..]) == Dump(items[0]) + more;
      assert t[0] == if first then Dump(items[0])[0] else ',';
      FollowsItems(items[1..], rest);
      RoundTrip(items[0], more);
      ItemsRoundTrip(items[1..], false, rest);
      assert [items[0]] + items[1..] == items;
    }
  }

  lemma {:induction false} FollowsItems(items: seq<Json>, rest: string)
    ensures Follows(DumpItems(items, false) + rest)
  {
    hide Dump;
  }

  lemma {:induction false} FollowsFields(fields: seq<Field>, rest: string)
    ensures Follows(DumpFields(fields, false) + rest)
  {
    hide DumpField;
  }

  lemma {:induction false} FieldRoundTrip(f: Field, rest: string)
    requires Valid(f.value) && Follows(rest)
    ensures ReadField(DumpField(f) + rest) == Some((f, rest)) && DumpField(f)[0] == '"'
    decreases f, 0
  {
    hide Dump, Valid, ReadValue, Quoted, ReadChars;
    var t := DumpField(f) + rest;
    var more := ":" + (Dump(f.value) + rest);
    assert t[0] == '"' && t[1..] == Quoted(f.key) + more;
    ReadsQuoted(f.key, more);
    assert more[0] == ':' && more[1..] == Dump(f.value) + rest;
    RoundTrip(f.value, rest);
  }

  lemma {:induction false} FieldsRoundTrip(fields: seq<Field>, first: bool, rest: string)
    requires forall i :: 0 <= i < |fields| ==> Valid(fields[i].value)
    ensures ReadFields(DumpFields(fields, first) + rest, first) == Some((fields, rest))
    decreases fields, 1
  {
    hide DumpField, Valid, ReadField;
    var t := DumpFields(fields, first) + rest;
    if fields == [] {
      assert t[0] == '}' && t[1..] == rest;
    } else {
      var (p, more) := (if first then "" else ",", DumpFields(fields[1..], false) + rest);
      FollowsFields(fields[1..], rest);
      FieldRoundTrip(fields[0], more);
      Reassociate(p, DumpField(fields[0]), DumpFields(fields[1..], false), rest);
      assert (if first then t else t[1..]) == DumpField(fields[0]) + more;
      assert t[0] == if first then '"' else ',';
      FieldsRoundTrip(fields[1..], false, rest);
      assert [fields[0]] + fields[1..] == fields;
    }
  }
}
