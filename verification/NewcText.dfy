/** Names and numbers of a newc archive written out, against what the reader takes them for. */
module NewcText {
  import opened Bytes
  import opened Collections
  import opened NewcReader

  /** The magic number and the trailer's name, as the format writes them. */
  lemma {:induction false} ConstantsAre()
    ensures |MAGIC| == 6 && forall i :: 0 <= i < 6 ==> MAGIC[i] as char == "070701"[i]
    ensures |TRAILER| == 10 && forall i :: 0 <= i < 10 ==> TRAILER[i] as char == "TRAILER!!!"[i]
  {
  }

  // ---------------------------------------------------------------- UTF-8, after section 3 of RFC 3629

  predicate Scalar(c: nat) { c < 0xD800 || 0xE000 <= c < 0x11_0000 }

  function EncodeScalar(c: nat): (r: seq<byte>)
    requires Scalar(c)
    ensures r != []
  {
    if c < 0x80 then [c]
    else if c < 0x800 then [0xC0 + c / 0x40, 0x80 + c % 0x40]
    else if c < 0x1_0000 then [0xE0 + c / 0x1000, 0x80 + c / 0x40 % 0x40, 0x80 + c % 0x40]
    else [0xF0 + c / 0x4_0000, 0x80 + c / 0x1000 % 0x40, 0x80 + c / 0x40 % 0x40, 0x80 + c % 0x40]
  }

  ghost predicate Scalars(text: seq<nat>) { forall i :: 0 <= i < |text| ==> Scalar(text[i]) }

  ghost function Encode(text: seq<nat>): seq<byte>
    requires Scalars(text)
  {
    if text == [] then [] else EncodeScalar(text[0]) + Encode(text[1..])
  }

  /** An encoded character at the start can be left out. */
  lemma {:induction false} EncodedFirst(c: nat, rest: seq<byte>)
    requires Scalar(c)
    ensures IsUtf8(EncodeScalar(c) + rest) <==> IsUtf8(rest)
  {
    var (x, s) := (EncodeScalar(c), EncodeScalar(c) + rest);
    assert s[|x|..] == rest;
    if c < 0x80 {
    } else if c < 0x800 {
      assert s[0] == x[0] && s[1] == x[1];
    } else if c < 0x1_0000 {
      assert s[0] == x[0] && s[1] == x[1] && s[2] == x[2];
    } else {
      assert s[0] == x[0] && s[1] == x[1] && s[2] == x[2] && s[3] == x[3];
    }
  }

  /** The character that well-formed bytes start with. */
  function FirstScalar(s: seq<byte>): (c: nat)
    requires s != [] && IsUtf8(s)
    ensures Scalar(c)
  {
    if s[0] < 0x80 then s[0]
    else if s[0] < 0xE0 then 0x40 * (At(s, 0) - 0xC0) + (At(s, 1) - 0x80)
    else if s[0] < 0xF0 then 0x1000 * (At(s, 0) - 0xE0) + 0x40 * (At(s, 1) - 0x80) + (At(s, 2) - 0x80)
    else 0x4_0000 * (At(s, 0) - 0xF0) + 0x1000 * (At(s, 1) - 0x80) + 0x40 * (At(s, 2) - 0x80) + (At(s, 3) - 0x80)
  }

  /** Six bits at a time. */
  lemma {:induction false} SixBits(a: nat, b: nat, c: nat, d: nat)
    requires b < 0x40 && c < 0x40 && d < 0x40
    ensures var n := 0x4_0000 * a + 0x1000 * b + 0x40 * c + d;
            n / 0x4_0000 == a && n / 0x1000 % 0x40 == b && n / 0x40 % 0x40 == c && n % 0x40 == d
  {
    var n := 0x4_0000 * a + 0x1000 * b + 0x40 * c + d;
    assert n / 0x40 == 0x1000 * a + 0x40 * b + c;
    assert n / 0x1000 == 0x40 * a + b;
  }

  lemma {:induction false} StartsEncoded(s: seq<byte>)
    requires s != [] && IsUtf8(s)
    ensures var x := EncodeScalar(FirstScalar(s)); x <= s && IsUtf8(s[|x|..])
  {
    var n := if s[0] < 0x80 then 1 else if s[0] < 0xE0 then 2 else if s[0] < 0xF0 then 3 else 4;
    assert n <= |s| && IsUtf8(s[n..]);
    FirstBytes(s, n);
  }

  lemma {:induction false} FirstBytes(s: seq<byte>, n: nat)
    requires s != [] && IsUtf8(s) && n <= |s|
    requires n == if s[0] < 0x80 then 1 else if s[0] < 0xE0 then 2 else if s[0] < 0xF0 then 3 else 4
    ensures EncodeScalar(FirstScalar(s)) == s[..n]
  {
    if n == 2 {
      SixBits(0, 0, At(s, 0) - 0xC0, At(s, 1) - 0x80);
      assert s[..2] == [s[0], s[1]];
    } else if n == 3 {
      SixBits(0, At(s, 0) - 0xE0, At(s, 1) - 0x80, At(s, 2) - 0x80);
      assert s[..3] == [s[0], s[1], s[2]];
    } else if n == 4 {
      SixBits(At(s, 0) - 0xF0, At(s, 1) - 0x80, At(s, 2) - 0x80, At(s, 3) - 0x80);
      assert s[..4] == [s[0], s[1], s[2], s[3]];
    }
  }

  /** The names that are let through are exactly the encodings of texts. */
  lemma {:induction false} Utf8Iff(s: seq<byte>)
    ensures IsUtf8(s) <==> exists text :: Scalars(text) && s == Encode(text)
  {
    if IsUtf8(s) {
      EncodingOf(s);
    }
    forall text | Scalars(text) ensures IsUtf8(Encode(text)) {
      EncodedIsUtf8(text);
    }
  }

  lemma {:induction false} EncodedIsUtf8(text: seq<nat>)
    requires Scalars(text)
    ensures IsUtf8(Encode(text))
  {
    hide EncodeScalar;
    if text != [] {
      EncodedIsUtf8(text[1..]);
      EncodedFirst(text[0], Encode(text[1..]));
    }
  }

  lemma {:induction false} EncodingOf(s: seq<byte>)
    requires IsUtf8(s)
    ensures exists text :: Scalars(text) && s == Encode(text)
  {
    hide EncodeScalar, IsUtf8, FirstScalar;
    if s == [] {
      assert Scalars([]) && s == Encode([]);
    } else {
      StartsEncoded(s);
      var c := FirstScalar(s);
      var x := EncodeScalar(c);
      EncodingOf(s[|x|..]);
      var rest :| Scalars(rest) && s[|x|..] == Encode(rest);
      assert ([c] + rest)[1..] == rest;
      assert Scalars([c] + rest) && s == Encode([c] + rest);
    }
  }

  // ---------------------------------------------------------------- numbers, as `int(field, 16)` takes them

  const LOWER := "0123456789abcdef"
  const UPPER := "0123456789ABCDEF"
  const BLANKS := " \t\n\U{0B}\U{0C}\r"

  /** A digit in either case, perhaps after an underscore. */
  datatype Digit = Digit(value: nat, upper: bool, spaced: bool)

  function PutDigit(d: Digit): seq<byte>
    requires d.value < 16
  {
    (if d.spaced then ['_' as int] else []) + [DigitByte(d.value, d.upper)]
  }

  function DigitByte(value: nat, upper: bool): (b: byte)
    requires value < 16
    ensures IsHex(b) && HexValue(b) == value && b != '_' as int && !IsBlank(b)
  {
    (if upper then UPPER[value] else LOWER[value]) as int
  }

  ghost predicate Digits(ds: seq<Digit>) { forall i :: 0 <= i < |ds| ==> ds[i].value < 16 }

  ghost function PutDigits(ds: seq<Digit>): seq<byte>
    requires Digits(ds)
  {
    if ds == [] then [] else PutDigit(ds[0]) + PutDigits(ds[1..])
  }

  /** Positional notation, the first digit counting most. */
  function ValueOf(ds: seq<Digit>): nat {
    if ds == [] then 0 else 16 * ValueOf(ds[..|ds| - 1]) + ds[|ds| - 1].value
  }

  /** The same, read from the front after digits that are worth `before`. */
  function ReadOn(before: nat, ds: seq<Digit>): nat
    decreases |ds|
  {
    if ds == [] then before else ReadOn(16 * before + ds[0].value, ds[1..])
  }

  lemma {:induction false} ReadOnLast(before: nat, ds: seq<Digit>, last: Digit)
    ensures ReadOn(before, ds + [last]) == 16 * ReadOn(before, ds) + last.value
    decreases |ds|
  {
    if ds == [] {
      assert ds + [last] == [last] && [last][1..] == [];
    } else {
      assert (ds + [last])[1..] == ds[1..] + [last];
      ReadOnLast(16 * before + ds[0].value, ds[1..], last);
    }
  }

  lemma {:induction false} ReadOnIsValue(ds: seq<Digit>)
    ensures ReadOn(0, ds) == ValueOf(ds)
  {
    if ds != [] {
      var n := |ds| - 1;
      ReadOnIsValue(ds[..n]);
      ReadOnLast(0, ds[..n], ds[n]);
      assert ds[..n] + [ds[n]] == ds;
    }
  }

  /** A field: blanks, a sign, a prefix, digits and blanks. An underscore before the first digit needs a prefix. */
  datatype Numeral = Numeral(before: seq<byte>, sign: seq<byte>, prefix: seq<byte>, digits: seq<Digit>, after: seq<byte>)

  ghost predicate Blank(s: seq<byte>) { forall i :: 0 <= i < |s| ==> s[i] as char in BLANKS }

  const PLUS: seq<byte> := ['+' as int]
  const MINUS: seq<byte> := ['-' as int]

  predicate IsSign(s: seq<byte>) { s == [] || s == PLUS || s == MINUS }

  predicate IsPrefix(s: seq<byte>) { s == [] || s == ['0' as int, 'x' as int] || s == ['0' as int, 'X' as int] }

  ghost predicate IsNumeral(x: Numeral) {
    && Blank(x.before) && Blank(x.after) && IsSign(x.sign)
    && IsPrefix(x.prefix)
    && Digits(x.digits) && x.digits != [] && (x.digits[0].spaced ==> x.prefix != [])
  }

  ghost function PutNumeral(x: Numeral): seq<byte>
    requires IsNumeral(x)
  {
    x.before + (x.sign + (x.prefix + PutDigits(x.digits))) + x.after
  }

  function NumeralValue(x: Numeral): int { if x.sign == MINUS then 0 - ValueOf(x.digits) else ValueOf(x.digits) }

  // ---------------------------------------------------------------- digits

  lemma {:induction false} ReadsRun(ds: seq<Digit>, value: nat, need: bool)
    requires Digits(ds)
    ensures HexRun(PutDigits(ds), value, need) ==
            if need && (ds == [] || ds[0].spaced) then None else Some(ReadOn(value, ds))
    decreases |ds|
  {
    hide PutDigit;
    if ds != [] {
      ReadsDigit(ds[0], PutDigits(ds[1..]), value, need);
      ReadsRun(ds[1..], 16 * value + ds[0].value, false);
    }
  }

  lemma {:induction false} ReadsDigit(d: Digit, rest: seq<byte>, value: nat, need: bool)
    requires d.value < 16
    ensures HexRun(PutDigit(d) + rest, value, need) == if need && d.spaced then None else HexRun(rest, 16 * value + d.value, false)
  {
    var b := DigitByte(d.value, d.upper);
    hide DigitByte;
    var s := [b] + rest;
    assert s[0] == b && s[1..] == rest;
    if d.spaced {
      var t := PutDigit(d) + rest;
      assert t[0] == '_' as int && t[1..] == s;
    } else {
      assert PutDigit(d) + rest == s;
    }
  }

  function DigitOf(b: byte, spaced: bool): (d: Digit)
    requires IsHex(b)
    ensures d.value < 16 && PutDigit(d) == (if spaced then ['_' as int] else []) + [b]
  {
    Digit(HexValue(b), b <= 0x46, spaced)
  }

  /** Whatever is read as a run of digits was written as one; `need`: an underscore, or nothing, came just before. */
  lemma {:induction false} RunIsWritten(s: seq<byte>, value: nat, need: bool)
    requires HexRun(s, value, need).Some?
    ensures exists ds: seq<Digit> :: Digits(ds) && s == PutDigits(ds) && (need ==> ds != [] && !ds[0].spaced)
    decreases |s|
  {
    if s == [] {
      assert Digits([]) && s == PutDigits([]);
    } else if IsHex(s[0]) {
      RunIsWritten(s[1..], 16 * value + HexValue(s[0]), false);
      var rest: seq<Digit> :| Digits(rest) && s[1..] == PutDigits(rest);
      Prepended(s, DigitOf(s[0], false), rest);
    } else {
      RunIsWritten(s[1..], value, true);
      var rest: seq<Digit> :| Digits(rest) && s[1..] == PutDigits(rest) && rest != [] && !rest[0].spaced;
      Respaced(s, rest);
    }
  }

  lemma {:induction false} Prepended(s: seq<byte>, d: Digit, rest: seq<Digit>)
    requires s != [] && d.value < 16 && Digits(rest) && PutDigit(d) == [s[0]] && !d.spaced && s[1..] == PutDigits(rest)
    ensures var ds := [d] + rest; Digits(ds) && s == PutDigits(ds) && !ds[0].spaced
  {
    hide PutDigit;
    assert ([d] + rest)[1..] == rest;
    assert s == [s[0]] + s[1..];
  }

  lemma {:induction false} Respaced(s: seq<byte>, rest: seq<Digit>)
    requires s != [] && s[0] == '_' as int && Digits(rest) && rest != [] && !rest[0].spaced && s[1..] == PutDigits(rest)
    ensures var ds := [rest[0].(spaced := true)] + rest[1..]; Digits(ds) && s == PutDigits(ds) && ds != [] && ds[0].spaced
  {
    hide DigitByte;
    var ds := [rest[0].(spaced := true)] + rest[1..];
    assert ds[1..] == rest[1..];
    assert s == [s[0]] + s[1..];
  }

  // ---------------------------------------------------------------- blanks

  lemma {:induction false} BlankIs(b: byte)
    ensures b as char in BLANKS <==> IsBlank(b)
  {
  }

  lemma {:induction false} BlanksAre(s: seq<byte>)
    ensures Blank(s) <==> forall i :: 0 <= i < |s| ==> IsBlank(s[i])
  {
    hide BLANKS, IsBlank;
    forall i | 0 <= i < |s| ensures s[i] as char in BLANKS <==> IsBlank(s[i]) {
      BlankIs(s[i]);
    }
  }

  lemma {:induction false} StripsBlanks(a: seq<byte>, core: seq<byte>, b: seq<byte>)
    requires (forall i :: 0 <= i < |a| ==> IsBlank(a[i])) && (forall i :: 0 <= i < |b| ==> IsBlank(b[i]))
    requires core != [] && !IsBlank(core[0]) && !IsBlank(core[|core| - 1])
    ensures Strip(a + core + b) == core
    decreases |a| + |b|
  {
    hide IsBlank;
    var s := a + core + b;
    if a != [] {
      assert s[0] == a[0] && s[1..] == a[1..] + core + b;
      StripsBlanks(a[1..], core, b);
    } else if b != [] {
      assert s[0] == core[0] && s[|s| - 1] == b[|b| - 1] && s[..|s| - 1] == a + core + b[..|b| - 1];
      StripsBlanks(a, core, b[..|b| - 1]);
    } else {
      assert s == core;
    }
  }

  lemma {:induction false} StrippedParts(s: seq<byte>)
    ensures exists a, b :: Blank(a) && Blank(b) && s == a + Strip(s) + b
    decreases |s|
  {
    hide BLANKS, IsBlank;
    if s != [] && IsBlank(s[0]) {
      StrippedParts(s[1..]);
      var a, b :| Blank(a) && Blank(b) && s[1..] == a + Strip(s[1..]) + b;
      BlankIs(s[0]);
      var (more, core) := ([s[0]] + a, Strip(s[1..]));
      assert s == [s[0]] + s[1..] && s == more + core + b;
      assert Blank(more) && Strip(s) == core;
    } else if s != [] && IsBlank(s[|s| - 1]) {
      var n := |s| - 1;
      StrippedParts(s[..n]);
      var a, b :| Blank(a) && Blank(b) && s[..n] == a + Strip(s[..n]) + b;
      BlankIs(s[n]);
      var (more, core) := (b + [s[n]], Strip(s[..n]));
      assert s == s[..n] + [s[n]] && s == a + core + more;
      assert Blank(more) && Strip(s) == core;
    } else {
      assert Blank([]) && s == [] + Strip(s) + [];
    }
  }

  // ---------------------------------------------------------------- fields

  /** Digits end with a digit, and start with one or an underscore; after a first digit comes another one or an underscore. */
  lemma {:induction false} DigitsEnds(ds: seq<Digit>)
    requires Digits(ds) && ds != []
    ensures var s := PutDigits(ds);
            && s != [] && IsHex(s[|s| - 1])
            && (if ds[0].spaced then s[0] == '_' as int else IsHex(s[0]))
            && (!ds[0].spaced && |s| > 1 ==> IsHex(s[1]) || s[1] == '_' as int)
    decreases |ds|
  {
    hide DigitByte, IsHex;
    var (first, rest) := (PutDigit(ds[0]), PutDigits(ds[1..]));
    if |ds| > 1 {
      DigitsEnds(ds[1..]);
      assert (first + rest)[|first + rest| - 1] == rest[|rest| - 1];
    }
  }

  function Unspaced(ds: seq<Digit>): (r: seq<Digit>)
    requires ds != []
  {
    [ds[0].(spaced := false)] + ds[1..]
  }

  lemma {:induction false} UnspacedReads(ds: seq<Digit>)
    requires Digits(ds) && ds != []
    ensures Digits(Unspaced(ds)) && HexRun(PutDigits(Unspaced(ds)), 0, true) == Some(ValueOf(ds))
    ensures PutDigits(ds) == (if ds[0].spaced then ['_' as int] else []) + PutDigits(Unspaced(ds))
  {
    var r := Unspaced(ds);
    assert r[1..] == ds[1..];
    ReadsRun(r, 0, true);
    ReadOnIsValue(ds);
  }

  lemma {:induction false} HexIsPlain(b: byte)
    requires IsHex(b)
    ensures !IsBlank(b) && b != '+' as int && b != '-' as int && b != '_' as int && b != 'x' as int && b != 'X' as int
  {
  }

  /** After the sign: the prefix and the underscore after it are dropped. */
  lemma {:induction false} PrefixIsDropped(prefix: seq<byte>, ds: seq<Digit>)
    requires IsPrefix(prefix)
    requires Digits(ds) && ds != [] && (ds[0].spaced ==> prefix != [])
    ensures Unprefixed(prefix + PutDigits(ds)) == PutDigits(Unspaced(ds))
  {
    hide PutDigits, Unspaced, HexRun, Unprefixed, IsHex;
    DigitsEnds(ds);
    UnspacedReads(ds);
    var digits := PutDigits(ds);
    if prefix == [] {
      assert prefix + digits == digits;
      if |digits| > 1 && IsHex(digits[1]) {
        HexIsPlain(digits[1]);
      }
      WithoutPrefix(digits);
    } else {
      if !ds[0].spaced {
        HexIsPlain(digits[0]);
      }
      WithPrefix(prefix, digits);
    }
  }

  lemma {:induction false} WithoutPrefix(s: seq<byte>)
    requires |s| > 1 ==> s[1] != 'x' as int && s[1] != 'X' as int
    ensures Unprefixed(s) == s
  {
  }

  lemma {:induction false} WithPrefix(prefix: seq<byte>, s: seq<byte>)
    requires IsPrefix(prefix) && prefix != [] && s != []
    ensures Unprefixed(prefix + s) == if s[0] == '_' as int then s[1..] else s
  {
    var t := prefix + s;
    assert t[0] == prefix[0] && t[1] == prefix[1] && t[2] == s[0] && t[2..] == s && t[3..] == s[1..];
  }

  lemma {:induction false} CoreEnds(x: Numeral)
    requires IsNumeral(x)
    ensures var core := x.sign + (x.prefix + PutDigits(x.digits));
            && core != [] && !IsBlank(core[0]) && !IsBlank(core[|core| - 1])
            && (x.sign == [] ==> core[0] != '+' as int && core[0] != '-' as int)
  {
    DigitsEnds(x.digits);
    var digits := PutDigits(x.digits);
    hide PutDigits, IsHex, IsBlank;
    var core := x.sign + (x.prefix + digits);
    assert core[|core| - 1] == digits[|digits| - 1];
    HexIsPlain(digits[|digits| - 1]);
    if x.sign != [] {
      assert core[0] == x.sign[0];
      SignIsPlain(core[0]);
    } else if x.prefix != [] {
      assert core[0] == '0' as int;
      HexIsPlain(ZeroByte());
    } else {
      assert core[0] == digits[0];
      HexIsPlain(digits[0]);
    }
  }

  function ZeroByte(): (b: byte)
    ensures IsHex(b) && b == '0' as int
  {
    '0' as int
  }

  lemma {:induction false} SignIsPlain(b: byte)
    requires b == '+' as int || b == '-' as int
    ensures !IsBlank(b)
  {
  }

  /** Every such field is read as its value. */
  lemma {:induction false} ReadsNumeral(x: Numeral)
    requires IsNumeral(x)
    ensures ParseHex(PutNumeral(x)) == Some(NumeralValue(x))
  {
    hide *;
    NumeralParts(x);
    var (rest, core) := (x.prefix + PutDigits(x.digits), x.sign + (x.prefix + PutDigits(x.digits)));
    CoreEnds(x);
    PrefixIsDropped(x.prefix, x.digits);
    UnspacedReads(x.digits);
    BlanksAre(x.before);
    BlanksAre(x.after);
    StripsBlanks(x.before, core, x.after);
    SignIsRead(x.sign, rest);
    ReadsCore(PutNumeral(x), x.sign == MINUS, rest, ValueOf(x.digits));
  }

  lemma {:induction false} NumeralParts(x: Numeral)
    requires IsNumeral(x)
    ensures Blank(x.before) && Blank(x.after) && IsSign(x.sign) && IsPrefix(x.prefix)
    ensures Digits(x.digits) && x.digits != [] && (x.digits[0].spaced ==> x.prefix != [])
    ensures PutNumeral(x) == x.before + (x.sign + (x.prefix + PutDigits(x.digits))) + x.after
    ensures x.sign == [] ==> x.sign + (x.prefix + PutDigits(x.digits)) == x.prefix + PutDigits(x.digits)
    ensures NumeralValue(x) == if x.sign == MINUS then 0 - ValueOf(x.digits) else ValueOf(x.digits)
  {
    hide PutDigits, Blank, IsSign, IsPrefix, Digits, ValueOf;
  }

  /** The last steps of reading a field. */
  lemma {:induction false} ReadsCore(field: seq<byte>, negative: bool, rest: seq<byte>, n: nat)
    requires var s := Strip(field);
             (if s != [] && s[0] == 0x2D then (true, s[1..]) else if s != [] && s[0] == 0x2B then (false, s[1..]) else (false, s))
             == (negative, rest)
    requires HexRun(Unprefixed(rest), 0, true) == Some(n)
    ensures ParseHex(field) == Some(if negative then 0 - n else n)
  {
    hide Strip, HexRun, Unprefixed;
  }

  lemma {:induction false} SignIsRead(sign: seq<byte>, rest: seq<byte>)
    requires IsSign(sign) && (sign == [] ==> rest == [] || (rest[0] != '+' as int && rest[0] != '-' as int))
    ensures var s := sign + rest;
            (if s != [] && s[0] == 0x2D then (true, s[1..]) else if s != [] && s[0] == 0x2B then (false, s[1..]) else (false, s))
            == (sign == MINUS, rest)
  {
    var s := sign + rest;
    if sign == [] {
      assert s == rest;
    } else {
      assert s[0] == sign[0] && s[1..] == rest;
    }
  }

  /** Whatever is read as digits, perhaps after a prefix, was written so. */
  lemma {:induction false} DigitsAreWritten(s: seq<byte>)
    requires HexRun(Unprefixed(s), 0, true).Some?
    ensures exists prefix, ds: seq<Digit> ::
              && IsPrefix(prefix) && Digits(ds) && ds != []
              && (ds[0].spaced ==> prefix != []) && s == prefix + PutDigits(ds)
  {
    hide HexRun, PutDigits;
    var u := Unprefixed(s);
    RunIsWritten(u, 0, true);
    var ds: seq<Digit> :| Digits(ds) && u == PutDigits(ds) && ds != [] && !ds[0].spaced;
    if u == s {
      var none: seq<byte> := [];
      assert IsPrefix(none) && s == none + PutDigits(ds);
    } else {
      var prefix := s[..2];
      if |s| > 2 && s[2] == 0x5F {
        var under := s[2..];
        assert under[1..] == u;
        Respaced(under, ds);
        var spaced := [ds[0].(spaced := true)] + ds[1..];
        assert s == prefix + under && IsPrefix(prefix);
        assert Digits(spaced) && spaced != [] && s == prefix + PutDigits(spaced);
      } else {
        assert IsPrefix(prefix) && s == prefix + PutDigits(ds);
      }
    }
  }

  /** A field is a number to the reader exactly when it is such a numeral, and then that number. */
  lemma {:induction false} ParseHexIff(field: seq<byte>, n: int)
    ensures ParseHex(field) == Some(n) <==> exists x :: IsNumeral(x) && field == PutNumeral(x) && n == NumeralValue(x)
  {
    forall x | IsNumeral(x) ensures ParseHex(PutNumeral(x)) == Some(NumeralValue(x)) {
      ReadsNumeral(x);
    }
    if ParseHex(field) == Some(n) {
      NumeralOf(field);
    }
  }

  lemma {:induction false} NumeralOf(field: seq<byte>)
    requires ParseHex(field).Some?
    ensures exists x :: IsNumeral(x) && field == PutNumeral(x) && ParseHex(field) == Some(NumeralValue(x))
  {
    hide Strip, HexRun, Unprefixed, BLANKS, PutDigits;
    StrippedParts(field);
    var a, b :| Blank(a) && Blank(b) && field == a + Strip(field) + b;
    var s := Strip(field);
    var sign: seq<byte> := if s != [] && (s[0] == 0x2D || s[0] == 0x2B) then s[..1] else [];
    var digits := s[|sign|..];
    assert s == sign + digits;
    DigitsAreWritten(digits);
    var prefix, ds: seq<Digit> :|
      && IsPrefix(prefix) && Digits(ds) && ds != []
      && (ds[0].spaced ==> prefix != []) && digits == prefix + PutDigits(ds);
    var x := Numeral(a, sign, prefix, ds, b);
    assert IsSign(sign) by { assert sign != [] ==> sign == [s[0]]; }
    assert IsNumeral(x);
    assert field == PutNumeral(x);
    ReadsNumeral(x);
  }
}
