/** Reading a newc CPIO archive: bounded, and keeping only the selected entries. */
module NewcReader {
  import opened Bytes
  import opened Collections

  const MAX_ARCHIVE_BYTES := 4 * 1024 * 1024 * 1024
  const MAX_ENTRIES := 250_000
  const MAX_CAPTURE_BYTES := 4 * 1024 * 1024

  // ---------------------------------------------------------------- numbers as Python reads them

  predicate IsHex(b: byte) { 0x30 <= b <= 0x39 || 0x41 <= b <= 0x46 || 0x61 <= b <= 0x66 }

  function HexValue(b: byte): (v: nat)
    requires IsHex(b)
    ensures v < 16
  {
    if b <= 0x39 then b as int - 0x30 else if b <= 0x46 then b as int - 0x37 else b as int - 0x57
  }

  /** Hexadecimal digits with single underscores between them. */
  function HexRun(s: seq<byte>, value: nat, need: bool): Option<nat> {
    if s == [] then (if need then None else Some(value))
    else if IsHex(s[0]) then HexRun(s[1..], 16 * value + HexValue(s[0]), false)
    else if s[0] == 0x5F && !need then HexRun(s[1..], value, true)
    else None
  }

  predicate IsBlank(b: byte) { b == 0x20 || 0x09 <= b <= 0x0D }

  function Strip(s: seq<byte>): seq<byte> {
    if s != [] && IsBlank(s[0]) then Strip(s[1..])
    else if s != [] && IsBlank(s[|s| - 1]) then Strip(s[..|s| - 1])
    else s
  }

  function Unprefixed(s: seq<byte>): seq<byte> {
    if |s| >= 2 && s[0] == 0x30 && (s[1] == 0x78 || s[1] == 0x58) then
      (if |s| > 2 && s[2] == 0x5F then s[3..] else s[2..])
    else s
  }

  /** `int(field, 16)`: blanks around it, a sign, a prefix and underscores are let through. */
  function ParseHex(field: seq<byte>): Option<int> {
    var s := Strip(field);
    var (negative, digits) :=
      if s != [] && s[0] == 0x2D then (true, s[1..]) else if s != [] && s[0] == 0x2B then (false, s[1..]) else (false, s);
    match HexRun(Unprefixed(digits), 0, true)
    case None => None
    case Some(n) => Some(if negative then 0 - n else n)
  }

  // ---------------------------------------------------------------- names

  predicate Continues(s: seq<byte>, i: nat) { i < |s| && 0x80 <= s[i] <= 0xBF }

  /** Well-formed UTF-8: no overlong forms, no surrogates, nothing beyond U+10FFFF. */
  predicate IsUtf8(s: seq<byte>) {
    if s == [] then true
    else if s[0] < 0x80 then IsUtf8(s[1..])
    else if 0xC2 <= s[0] <= 0xDF then Continues(s, 1) && IsUtf8(s[2..])
    else if 0xE0 <= s[0] <= 0xEF then
      Continues(s, 1) && Continues(s, 2) && (s[0] == 0xE0 ==> s[1] >= 0xA0) && (s[0] == 0xED ==> s[1] < 0xA0) && IsUtf8(s[3..])
    else if 0xF0 <= s[0] <= 0xF4 then
      && Continues(s, 1) && Continues(s, 2) && Continues(s, 3)
      && (s[0] == 0xF0 ==> s[1] >= 0x90) && (s[0] == 0xF4 ==> s[1] < 0x90) && IsUtf8(s[4..])
    else false
  }

  const MAGIC: seq<byte> := [0x30, 0x37, 0x30, 0x37, 0x30, 0x31]
  const TRAILER: seq<byte> := [0x54, 0x52, 0x41, 0x49, 0x4C, 0x45, 0x52, 0x21, 0x21, 0x21]

  // ---------------------------------------------------------------- headers

  datatype Header = Header(mode: int, size: int, nameSize: int)

  /** The thirteen fields: inode, mode, owner, group, links, time, size, two devices, name size and checksum. */
  function Field(h: seq<byte>, k: nat): (f: seq<byte>)
    requires |h| == 110 && k < 13
    ensures |f| == 8
  {
    h[6 + 8 * k..14 + 8 * k]
  }

  predicate FieldsParse(h: seq<byte>)
    requires |h| == 110
  {
    forall k :: 0 <= k < 13 ==> ParseHex(Field(h, k)).Some?
  }

  function ParseHeader(h: seq<byte>): Option<Header>
    requires |h| == 110
  {
    if h[..6] != MAGIC || !FieldsParse(h) then None
    else Some(Header(ParseHex(Field(h, 1)).value, ParseHex(Field(h, 6)).value, ParseHex(Field(h, 11)).value))
  }

  function Padding(n: int): (p: nat)
    ensures p < 4 && (n + p) % 4 == 0
  {
    (-n) % 4
  }

  /** The next multiple of four after a name that follows the header at `pos`. */
  function BodyAt(pos: nat, nameSize: nat): (body: nat)
    requires pos % 4 == 0
    ensures body % 4 == 0 && pos + 110 + nameSize <= body
  {
    pos + (110 + nameSize + Padding(110 + nameSize))
  }

  /** Skipping never succeeds with a negative size, nor past the end. */
  function Skip(data: seq<byte>, pos: nat, size: int): Result<nat> {
    if size < 0 || pos + size > |data| then Err else Ok(pos + size)
  }

  // ---------------------------------------------------------------- entries

  /** What the caller wants kept: the init command, the entrypoint and the CA bundle. */
  type Selection = seq<byte> -> bool

  type Captured = map<seq<byte>, (int, seq<byte>)>

  datatype Progress = Bad | Finished(captured: Captured) | More(pos: nat, seen: set<seq<byte>>, captured: Captured)

  predicate AllZero(s: seq<byte>) { forall i :: 0 <= i < |s| ==> s[i] == 0 }

  /** The name after the header at `pos`, without its terminator. */
  function NameAt(data: seq<byte>, pos: nat, h: Header): Option<seq<byte>> {
    if !(1 <= h.nameSize <= 4096) || pos + 110 + h.nameSize > |data| then None
    else
      var last := pos + 110 + h.nameSize - 1;
      if data[last] == 0 && IsUtf8(data[pos + 110..last]) then Some(data[pos + 110..last]) else None
  }

  /** One iteration of the loop, with the file at `pos`. */
  function ReadEntry(data: seq<byte>, pos: nat, seen: set<seq<byte>>, captured: Captured, selected: Selection): (r: Progress)
    requires pos % 4 == 0
    ensures r.More? ==> pos < r.pos <= |data| && r.pos % 4 == 0
  {
    if pos + 110 > |data| then Bad
    else
      match ParseHeader(data[pos..pos + 110])
      case None => Bad
      case Some(h) =>
        var name := NameAt(data, pos, h);
        if h.size > MAX_ARCHIVE_BYTES || name.None? || name.value in seen then Bad
        else
          var body := BodyAt(pos, h.nameSize);
          if body > |data| then Bad
          else ReadBody(data, pos, body, h, name.value, seen + {name.value}, captured, selected)
  }

  /** The rest of the iteration, with the file past the name's padding. */
  function ReadBody(data: seq<byte>, pos: nat, body: nat, h: Header, name: seq<byte>, seen: set<seq<byte>>, captured: Captured,
                    selected: Selection): (r: Progress)
    requires pos < body <= |data| && body % 4 == 0
    ensures r.More? ==> pos < r.pos <= |data| && r.pos % 4 == 0
  {
    if body + h.size > MAX_ARCHIVE_BYTES then Bad
    else if name == TRAILER then
      (if h.size == 0 && |data| - body <= 4096 && AllZero(data[body..]) then Finished(captured) else Bad)
    else if selected(name) && h.size > MAX_CAPTURE_BYTES then Bad
    else
      match Skip(data, body, h.size)
      case Err => Bad
      case Ok(end) =>
        match Skip(data, end, Padding(h.size))
        case Err => Bad
        case Ok(next) =>
          More(next, seen, if selected(name) then captured[name := (h.mode, data[body..end])] else captured)
  }

  /** At most `n` more entries. Every header starts at a multiple of four. */
  function ReadEntries(data: seq<byte>, pos: nat, n: nat, seen: set<seq<byte>>, captured: Captured, selected: Selection): Result<Captured>
    requires pos % 4 == 0
    decreases n
  {
    if n == 0 then Err
    else
      match ReadEntry(data, pos, seen, captured, selected)
      case Bad => Err
      case Finished(result) => Ok(result)
      case More(pos', seen', captured') => ReadEntries(data, pos', n - 1, seen', captured', selected)
  }

  function Entries(data: seq<byte>, selected: Selection): Result<Captured> {
    ReadEntries(data, 0, MAX_ENTRIES, {}, map[], selected)
  }
}
