/** Thin Mach-O images written out field by field, against what the passes find in them. */
module MachOWriter {
  import opened Bytes
  import opened MachOImage
  import opened MachOSections

  // ---------------------------------------------------------------- section headers

  predicate IsName(name: string) { |name| <= 16 && forall i :: 0 <= i < |name| ==> 0 < name[i] as int < 128 }

  /** Sixteen bytes, the rest of them zero. */
  function PutName(name: string): (r: seq<byte>)
    requires IsName(name)
    ensures |r| == 16
  {
    seq(16, i requires 0 <= i < 16 => if i < |name| then name[i] as int else 0)
  }

  lemma {:induction false} ReadsName(name: string, raw: seq<byte>)
    requires forall i :: 0 <= i < |name| ==> 0 < name[i] as int < 128
    requires |name| <= |raw| && forall i :: 0 <= i < |raw| ==> raw[i] == if i < |name| then name[i] as int else 0
    ensures DecodeName(raw) == name
  {
    if name != [] {
      ReadsName(name[1..], raw[1..]);
      assert [name[0]] + name[1..] == name;
    }
  }

  /** Bytes that are not ASCII do not count. */
  lemma {:induction false} OthersAreDropped(a: seq<byte>, b: byte, c: seq<byte>)
    requires b >= 0x80
    ensures DecodeName(a + [b] + c) == DecodeName(a + c)
  {
    if a == [] {
      assert (a + [b] + c)[1..] == c && a + c == c;
    } else {
      assert (a + [b] + c)[1..] == a[1..] + [b] + c && (a + c)[1..] == a[1..] + c;
      OthersAreDropped(a[1..], b, c);
    }
  }

  /** A section as it is known, and the fields of its header that no pass reads. */
  datatype Header = Header(section: Section, unread: seq<byte>)

  predicate ValidHeader(h: Header, wide: bool) {
    && IsName(h.section.segname) && IsName(h.section.sectname) && h.section.offset < 0x1_0000_0000
    && (if wide then h.section.address < U64 && h.section.size < U64 && |h.unread| == 28
        else h.section.address < 0x1_0000_0000 && h.section.size < 0x1_0000_0000 && |h.unread| == 24)
  }

  /** Section name, segment name, address, size, file offset, and the rest. */
  function PutHeader(h: Header, big: bool, wide: bool): (r: seq<byte>)
    requires ValidHeader(h, wide)
    ensures |r| == SectionSize(wide)
  {
    var s := h.section;
    PutName(s.sectname) + (PutName(s.segname) +
      if wide then PutU64(s.address, big) + (PutU64(s.size, big) + (PutU32(s.offset, big) + h.unread))
      else PutU32(s.address, big) + (PutU32(s.size, big) + (PutU32(s.offset, big) + h.unread)))
  }

  lemma {:induction false} ReadsNames(s: seq<byte>, at: nat, name: string)
    requires IsName(name) && HasAt(s, at, PutName(name))
    ensures DecodeName(s[at..at + 16]) == name
  {
    ReadsName(name, s[at..at + 16]);
  }

  lemma {:induction false} ReadsHeader(s: seq<byte>, at: nat, h: Header, big: bool, wide: bool)
    requires ValidHeader(h, wide) && HasAt(s, at, PutHeader(h, big, wide))
    ensures SectionAt(s, big, wide, at) == h.section
  {
    hide PutName, PutU32, PutU64, HasAt, U32At, U64At, DecodeName, IsName;
    var sec := h.section;
    var tail := PutU32(sec.offset, big) + h.unread;
    var numbers := if wide then PutU64(sec.address, big) + (PutU64(sec.size, big) + tail)
                   else PutU32(sec.address, big) + (PutU32(sec.size, big) + tail);
    HasParts(s, at, PutName(sec.sectname), PutName(sec.segname) + numbers);
    HasParts(s, at + 16, PutName(sec.segname), numbers);
    ReadsNames(s, at, sec.sectname);
    ReadsNames(s, at + 16, sec.segname);
    if wide {
      HasParts(s, at + 32, PutU64(sec.address, big), PutU64(sec.size, big) + tail);
      HasParts(s, at + 40, PutU64(sec.size, big), tail);
      HasParts(s, at + 48, PutU32(sec.offset, big), h.unread);
      ReadsU64(s, at + 32, sec.address, big);
      ReadsU64(s, at + 40, sec.size, big);
      ReadsU32(s, at + 48, sec.offset, big);
    } else {
      HasParts(s, at + 32, PutU32(sec.address, big), PutU32(sec.size, big) + tail);
      HasParts(s, at + 36, PutU32(sec.size, big), tail);
      HasParts(s, at + 40, PutU32(sec.offset, big), h.unread);
      ReadsU32(s, at + 32, sec.address, big);
      ReadsU32(s, at + 36, sec.size, big);
      ReadsU32(s, at + 40, sec.offset, big);
    }
  }

  function HeadersSize(n: nat, wide: bool): nat { if wide then 80 * n else 68 * n }

  function PutHeaders(hs: seq<Header>, big: bool, wide: bool): (r: seq<byte>)
    requires forall i :: 0 <= i < |hs| ==> ValidHeader(hs[i], wide)
    ensures |r| == HeadersSize(|hs|, wide)
  {
    if hs == [] then [] else PutHeader(hs[0], big, wide) + PutHeaders(hs[1..], big, wide)
  }

  function SectionsIn(hs: seq<Header>): (r: seq<Section>)
    ensures |r| == |hs|
  {
    seq(|hs|, i requires 0 <= i < |hs| => hs[i].section)
  }

  /** All headers are read, and no more: either the count says so, or no further one fits. */
  lemma {:induction false} ReadsHeaders(s: seq<byte>, at: nat, hs: seq<Header>, n: nat, end: nat, big: bool, wide: bool)
    requires forall i :: 0 <= i < |hs| ==> ValidHeader(hs[i], wide)
    requires HasAt(s, at, PutHeaders(hs, big, wide)) && at + HeadersSize(|hs|, wide) <= end <= |s|
    requires n == |hs| || (n > |hs| && at + HeadersSize(|hs| + 1, wide) > end)
    ensures SectionsFrom(s, big, wide, at, n, end) == SectionsIn(hs)
    decreases |hs|
  {
    hide SectionAt, PutHeader, HasAt;
    if hs != [] {
      HasParts(s, at, PutHeader(hs[0], big, wide), PutHeaders(hs[1..], big, wide));
      ReadsHeader(s, at, hs[0], big, wide);
      ReadsHeaders(s, at + SectionSize(wide), hs[1..], n - 1, end, big, wide);
      assert SectionsIn(hs) == [hs[0].section] + SectionsIn(hs[1..]);
    }
  }

  // ---------------------------------------------------------------- load commands

  /** A UUID, a segment with its section headers, or anything else. A segment may count more headers than there is room
      for; `about` and `flags` are what its header says of itself, and `rest` follows. */
  datatype Load =
    | Uuid(id: seq<byte>, rest: seq<byte>)
    | Segment(wide: bool, about: seq<byte>, count: word, flags: seq<byte>, headers: seq<Header>, rest: seq<byte>)
    | Other(cmd: word, payload: seq<byte>)

  function CmdOf(c: Load): word {
    match c
    case Uuid(_, _) => 0x1B
    case Segment(wide, _, _, _, _, _) => if wide then 0x19 else 0x1
    case Other(cmd, _) => cmd
  }

  /** A command of another kind, or one too short to be what its number says. */
  predicate IsOther(cmd: word, length: nat) {
    (cmd == 0x1B ==> length < 16) && (cmd == 0x19 ==> length < 64) && (cmd == 0x1 ==> length < 48)
  }

  predicate ValidLoad(c: Load) {
    && (match c
        case Uuid(id, _) => |id| == 16
        case Segment(wide, about, count, flags, headers, rest) =>
          && |about| == (if wide then 56 else 40) && |flags| == 4
          && (forall i :: 0 <= i < |headers| ==> ValidHeader(headers[i], wide))
          && (count == |headers| || (count > |headers| && |rest| < SectionSize(wide)))
        case Other(cmd, payload) => IsOther(cmd, |payload|))
    && PayloadSize(c) + 8 < 0x1_0000_0000
  }

  function PayloadSize(c: Load): nat {
    match c
    case Uuid(id, rest) => |id| + |rest|
    case Segment(wide, about, _, flags, headers, rest) => |about| + 4 + |flags| + HeadersSize(|headers|, wide) + |rest|
    case Other(_, payload) => |payload|
  }

  function Payload(c: Load, big: bool): (r: seq<byte>)
    requires ValidLoad(c)
    ensures |r| == PayloadSize(c)
  {
    match c
    case Uuid(id, rest) => id + rest
    case Segment(wide, about, count, flags, headers, rest) =>
      about + (PutU32(count, big) + (flags + (PutHeaders(headers, big, wide) + rest)))
    case Other(_, payload) => payload
  }

  function LoadSize(c: Load): nat { 8 + PayloadSize(c) }

  /** The command's number, its size with these eight bytes, and what it holds. */
  function PutLoad(c: Load, big: bool): (r: seq<byte>)
    requires ValidLoad(c)
    ensures |r| == LoadSize(c)
  {
    PutU32(CmdOf(c), big) + (PutU32(LoadSize(c), big) + Payload(c, big))
  }

  /** What a pass is to find in a command. */
  function Found(pass: Pass, c: Load): seq<Section> {
    if c.Segment? && (c.wide || pass.Stubs?) then SectionsIn(c.headers) else []
  }

  lemma {:induction false} ReadsLoad(s: seq<byte>, at: nat, c: Load, big: bool)
    requires ValidLoad(c) && HasAt(s, at, PutLoad(c, big))
    ensures U32At(s, at, big) == CmdOf(c) && U32At(s, at + 4, big) == LoadSize(c) && HasAt(s, at + 8, Payload(c, big))
  {
    hide PutU32, U32At, HasAt, Payload;
    HasParts(s, at, PutU32(CmdOf(c), big), PutU32(LoadSize(c), big) + Payload(c, big));
    HasParts(s, at + 4, PutU32(LoadSize(c), big), Payload(c, big));
    ReadsU32(s, at, CmdOf(c), big);
    ReadsU32(s, at + 4, LoadSize(c), big);
  }

  lemma {:induction false} ReadsSegment(s: seq<byte>, at: nat, c: Load, big: bool)
    requires ValidLoad(c) && c.Segment? && HasAt(s, at, Payload(c, big))
    ensures U32At(s, at + |c.about|, big) == c.count
    ensures HasAt(s, at + |c.about| + 8, PutHeaders(c.headers, big, c.wide))
  {
    var headers := PutHeaders(c.headers, big, c.wide);
    assert Payload(c, big) == c.about + (PutU32(c.count, big) + (c.flags + (headers + c.rest))) && |c.flags| == 4;
    hide *;
    SegmentParts(s, at, c.about, PutU32(c.count, big), c.flags, headers, c.rest);
    ReadsU32(s, at + |c.about|, c.count, big);
  }

  lemma {:induction false} SegmentParts(s: seq<byte>, at: nat, about: seq<byte>, count: seq<byte>, flags: seq<byte>,
                                        headers: seq<byte>, rest: seq<byte>)
    requires HasAt(s, at, about + (count + (flags + (headers + rest)))) && |count| == |flags| == 4
    ensures HasAt(s, at + |about|, count) && HasAt(s, at + |about| + 8, headers)
  {
    hide HasAt;
    HasParts(s, at, about, count + (flags + (headers + rest)));
    HasParts(s, at + |about|, count, flags + (headers + rest));
    HasParts(s, at + |about| + 4, flags, headers + rest);
    HasParts(s, at + |about| + 8, headers, rest);
  }

  lemma {:induction false} FindsSections(pass: Pass, s: seq<byte>, at: nat, c: Load, big: bool)
    requires ValidLoad(c) && HasAt(s, at, PutLoad(c, big))
    ensures SectionsOf(pass, s, big, Command(at, CmdOf(c), LoadSize(c))) == Found(pass, c)
  {
    hide U32At, HasAt, PutHeaders, ValidHeader, PutLoad, SectionsFrom, PutU32;
    PutLoadFits(s, at, c, big);
    if c.Segment? {
      ReadsLoad(s, at, c, big);
      ReadsSegment(s, at + 8, c, big);
      ReadsHeaders(s, at + SegmentHeaderSize(c.wide), c.headers, c.count, at + LoadSize(c), big, c.wide);
    }
  }

  lemma {:induction false} PutLoadFits(s: seq<byte>, at: nat, c: Load, big: bool)
    requires ValidLoad(c) && HasAt(s, at, PutLoad(c, big))
    ensures at + LoadSize(c) <= |s|
  {
    hide PutLoad;
  }

  // ---------------------------------------------------------------- the table

  ghost predicate ValidLoads(cs: seq<Load>) { forall i :: 0 <= i < |cs| ==> ValidLoad(cs[i]) }

  function LoadsSize(cs: seq<Load>): nat { if cs == [] then 0 else LoadSize(cs[0]) + LoadsSize(cs[1..]) }

  ghost function PutLoads(cs: seq<Load>, big: bool): (r: seq<byte>)
    requires ValidLoads(cs)
    ensures |r| == LoadsSize(cs)
  {
    if cs == [] then [] else PutLoad(cs[0], big) + PutLoads(cs[1..], big)
  }

  /** The commands, one after another from `at`. */
  function Laid(cs: seq<Load>, at: nat): seq<Command> {
    if cs == [] then []
    else [Command(at, CmdOf(cs[0]), LoadSize(cs[0]))] + Laid(cs[1..], at + LoadSize(cs[0]))
  }

  function FoundIn(pass: Pass, cs: seq<Load>): seq<Section> {
    if cs == [] then [] else Found(pass, cs[0]) + FoundIn(pass, cs[1..])
  }

  lemma {:induction false} ReadsFirst(s: seq<byte>, at: nat, cs: seq<Load>, big: bool, limit: nat)
    requires ValidLoads(cs) && cs != [] && HasAt(s, at, PutLoads(cs, big)) && at + LoadsSize(cs) <= limit <= |s|
    ensures HasAt(s, at, PutLoad(cs[0], big)) && ValidLoads(cs[1..]) && HasAt(s, at + LoadSize(cs[0]), PutLoads(cs[1..], big))
    ensures U32At(s, at, big) == CmdOf(cs[0]) && U32At(s, at + 4, big) == LoadSize(cs[0])
    ensures at + LoadSize(cs[0]) + LoadsSize(cs[1..]) <= limit
  {
    hide U32At, HasAt, PutLoad, ValidLoad;
    assert ValidLoad(cs[0]);
    HasParts(s, at, PutLoad(cs[0], big), PutLoads(cs[1..], big));
    ReadsLoad(s, at, cs[0], big);
  }

  /** The walk visits the written commands. */
  lemma {:induction false} ReadsLoads(s: seq<byte>, at: nat, cs: seq<Load>, big: bool, limit: nat)
    requires ValidLoads(cs) && HasAt(s, at, PutLoads(cs, big)) && at + LoadsSize(cs) <= limit <= |s|
    ensures Walk(s, big, at, |cs|, limit) == Laid(cs, at)
    decreases |cs|
  {
    hide U32At, HasAt, PutLoads, CmdOf, ValidLoads, PayloadSize, LoadsSize;
    if cs != [] {
      ReadsFirst(s, at, cs, big, limit);
      ReadsLoads(s, at + LoadSize(cs[0]), cs[1..], big, limit);
    }
  }

  /** And ends after them. */
  lemma {:induction false} EndsAfter(s: seq<byte>, at: nat, cs: seq<Load>, big: bool, limit: nat)
    requires ValidLoads(cs) && HasAt(s, at, PutLoads(cs, big)) && at + LoadsSize(cs) <= limit <= |s|
    ensures WalkEnd(s, big, at, |cs|, limit) == at + LoadsSize(cs)
    decreases |cs|
  {
    hide U32At, HasAt, PutLoads, CmdOf, ValidLoads, PayloadSize;
    if cs != [] {
      ReadsFirst(s, at, cs, big, limit);
      EndsAfter(s, at + LoadSize(cs[0]), cs[1..], big, limit);
    }
  }

  /** A pass finds the sections of the written segments. */
  lemma {:induction false} FindsAll(pass: Pass, s: seq<byte>, at: nat, cs: seq<Load>, big: bool, limit: nat)
    requires ValidLoads(cs) && HasAt(s, at, PutLoads(cs, big)) && at + LoadsSize(cs) <= limit <= |s|
    ensures AllSections(pass, s, big, at, |cs|, limit) == FoundIn(pass, cs)
    decreases |cs|
  {
    hide U32At, HasAt, PutLoads, CmdOf, SectionsOf, Found, PutLoad, ValidLoad;
    if cs != [] {
      ReadsFirst(s, at, cs, big, limit);
      FindsSections(pass, s, at, cs[0], big);
      FindsAll(pass, s, at + LoadSize(cs[0]), cs[1..], big, limit);
    }
  }

  // ---------------------------------------------------------------- images

  /** A thin image. `about` is what its header says before the number of commands, `more` what it says after. */
  datatype Image = Image(big: bool, wide: bool, about: seq<byte>, more: seq<byte>, loads: seq<Load>, body: seq<byte>)

  ghost predicate ValidImage(m: Image) {
    |m.about| == 12 && |m.more| == (if m.wide then 12 else 8) && |m.loads| < 0x1_0000_0000 && ValidLoads(m.loads)
  }

  function Magic(big: bool, wide: bool): (r: seq<byte>)
    ensures |r| == 4
  {
    PutU32(if wide then 0xFEED_FACF else 0xFEED_FACE, big)
  }

  ghost function PutImageHeader(m: Image): (r: seq<byte>)
    requires ValidImage(m)
    ensures |r| == HeaderSize(m.wide)
  {
    Magic(m.big, m.wide) + (m.about + (PutU32(|m.loads|, m.big) + m.more))
  }

  ghost function PutImage(m: Image): (r: seq<byte>)
    requires ValidImage(m)
    ensures |r| == ImageSize(m)
  {
    PutImageHeader(m) + (PutLoads(m.loads, m.big) + m.body)
  }

  function ImageSize(m: Image): nat { HeaderSize(m.wide) + LoadsSize(m.loads) + |m.body| }

  lemma {:induction false} MagicBytes()
    ensures Magic(true, false) == [0xFE, 0xED, 0xFA, 0xCE] && Magic(true, true) == [0xFE, 0xED, 0xFA, 0xCF]
    ensures Magic(false, false) == [0xCE, 0xFA, 0xED, 0xFE] && Magic(false, true) == [0xCF, 0xFA, 0xED, 0xFE]
  {
  }

  lemma {:induction false} HeaderParts(s: seq<byte>, base: nat, m: Image)
    requires ValidImage(m) && HasAt(s, base, PutImageHeader(m))
    ensures HasAt(s, base, Magic(m.big, m.wide)) && U32At(s, base + 16, m.big) == |m.loads|
  {
    hide PutU32, U32At, HasAt, Magic, ValidLoads;
    HasParts(s, base, Magic(m.big, m.wide), m.about + (PutU32(|m.loads|, m.big) + m.more));
    HasParts(s, base + 4, m.about, PutU32(|m.loads|, m.big) + m.more);
    HasParts(s, base + 16, PutU32(|m.loads|, m.big), m.more);
    ReadsU32(s, base + 16, |m.loads|, m.big);
  }

  lemma {:induction false} ReadsShape(s: seq<byte>, base: nat, size: nat, big: bool, wide: bool)
    requires base + size <= |s| && size >= 4 && HasAt(s, base, Magic(big, wide))
    ensures ShapeOf(s, base, size) == Thin(big, wide)
  {
    hide Magic;
    MagicBytes();
  }

  lemma {:induction false} ImageParts(s: seq<byte>, base: nat, m: Image)
    requires ValidImage(m) && HasAt(s, base, PutImage(m))
    ensures base + ImageSize(m) <= |s|
    ensures ShapeOf(s, base, ImageSize(m)) == Thin(m.big, m.wide)
    ensures TableOf(s, base, ImageSize(m)) == Table(m.big, base + HeaderSize(m.wide), |m.loads|)
    ensures HasAt(s, base + HeaderSize(m.wide), PutLoads(m.loads, m.big))
  {
    assert base + |PutImage(m)| <= |s|;
    hide HasAt, PutLoads, PutImageHeader, ShapeOf, U32At, Magic, LoadsSize, ValidLoads;
    HasParts(s, base, PutImageHeader(m), PutLoads(m.loads, m.big) + m.body);
    HasParts(s, base + HeaderSize(m.wide), PutLoads(m.loads, m.big), m.body);
    HeaderParts(s, base, m);
    ReadsShape(s, base, ImageSize(m), m.big, m.wide);
  }

  /** Wherever an image stands in a file, the walk finds exactly the commands that were written, and each pass exactly the
      sections that were written for it: a GOT pass those of the 64-bit segments of a 64-bit image. */
  lemma {:induction false} ReadsImage(pass: Pass, s: seq<byte>, base: nat, m: Image)
    requires ValidImage(m) && HasAt(s, base, PutImage(m))
    ensures base + ImageSize(m) <= |s|
    ensures Commands(s, base, ImageSize(m)) == Laid(m.loads, base + HeaderSize(m.wide))
    ensures TableEnd(s, base, ImageSize(m)) == base + HeaderSize(m.wide) + LoadsSize(m.loads)
    ensures ImageSections(pass, s, base, ImageSize(m)) == if pass.Stubs? || m.wide then FoundIn(pass, m.loads) else []
  {
    hide HasAt, PutLoads, PutImage, ShapeOf, TableOf, LoadsSize, ValidLoads, Walk, WalkEnd, AllSections, FoundIn, Laid;
    ImageParts(s, base, m);
    var (at, limit) := (base + HeaderSize(m.wide), base + ImageSize(m));
    ReadsLoads(s, at, m.loads, m.big, limit);
    EndsAfter(s, at, m.loads, m.big, limit);
    FindsAll(pass, s, at, m.loads, m.big, limit);
  }

  // ---------------------------------------------------------------- the UUID pass on a written image

  /** The same command with its UUID zero. */
  function WithoutUuid(c: Load): Load {
    if c.Uuid? then c.(id := seq(|c.id|, _ => 0)) else c
  }

  function WithoutUuids(cs: seq<Load>): (r: seq<Load>)
    ensures |r| == |cs|
  {
    seq(|cs|, i requires 0 <= i < |cs| => WithoutUuid(cs[i]))
  }

  /** `p` is in the sixteen bytes that were written as a UUID. */
  predicate UuidAt(cs: seq<Load>, at: nat, p: int) {
    cs != [] && ((cs[0].Uuid? && at + 8 <= p < at + 24) || UuidAt(cs[1..], at + LoadSize(cs[0]), p))
  }

  lemma {:induction false} UuidsAre(cs: seq<Load>, at: nat, p: int)
    requires ValidLoads(cs)
    ensures InUuid(Laid(cs, at), p) <==> UuidAt(cs, at, p)
    decreases |cs|
  {
    if cs != [] {
      var (first, rest) := (Command(at, CmdOf(cs[0]), LoadSize(cs[0])), Laid(cs[1..], at + LoadSize(cs[0])));
      assert ValidLoad(cs[0]);
      UuidsAre(cs[1..], at + LoadSize(cs[0]), p);
      FirstUuid(first, rest, p);
    }
  }

  lemma {:induction false} FirstUuid(c: Command, rest: seq<Command>, p: int)
    ensures InUuid([c] + rest, p) <==> (c.cmd == LC_UUID && c.size >= 24 && c.at + 8 <= p < c.at + 24) || InUuid(rest, p)
  {
    var cs := [c] + rest;
    if InUuid(rest, p) {
      var k :| 0 <= k < |rest| && rest[k].cmd == LC_UUID && rest[k].size >= 24 && rest[k].at + 8 <= p < rest[k].at + 24;
      assert cs[k + 1] == rest[k];
    }
    assert cs[0] == c;
  }

  lemma {:induction false} UuidsAbove(cs: seq<Load>, at: nat, p: int)
    requires UuidAt(cs, at, p)
    ensures p >= at + 8
    decreases |cs|
  {
    if !(cs[0].Uuid? && at + 8 <= p < at + 24) {
      UuidsAbove(cs[1..], at + LoadSize(cs[0]), p);
    }
  }

  lemma {:induction false} WithoutUuidsIsValid(cs: seq<Load>)
    requires ValidLoads(cs)
    ensures ValidLoads(WithoutUuids(cs)) && LoadsSize(WithoutUuids(cs)) == LoadsSize(cs)
    decreases |cs|
  {
    if cs != [] {
      assert ValidLoad(cs[0]);
      assert WithoutUuids(cs)[1..] == WithoutUuids(cs[1..]);
      WithoutUuidsIsValid(cs[1..]);
      forall i | 0 <= i < |cs| ensures ValidLoad(WithoutUuids(cs)[i]) {
        assert ValidLoad(cs[i]);
      }
    }
  }

  /** One command: the written bytes differ where the UUID is. */
  lemma {:induction false} WithoutUuidBytes(c: Load, big: bool)
    requires ValidLoad(c)
    ensures ValidLoad(WithoutUuid(c)) && LoadSize(WithoutUuid(c)) == LoadSize(c) && (c.Uuid? ==> LoadSize(c) >= 24)
    ensures forall i :: 0 <= i < LoadSize(c) ==>
              PutLoad(WithoutUuid(c), big)[i] == if c.Uuid? && 8 <= i < 24 then 0 else PutLoad(c, big)[i]
  {
    hide PutU32;
  }

  lemma {:induction false} WithoutUuidsBytes(cs: seq<Load>, big: bool, i: nat)
    requires ValidLoads(cs) && i < LoadsSize(cs)
    ensures ValidLoads(WithoutUuids(cs)) && LoadsSize(WithoutUuids(cs)) == LoadsSize(cs)
    ensures PutLoads(WithoutUuids(cs), big)[i] == if UuidAt(cs, 0, i) then 0 else PutLoads(cs, big)[i]
    decreases |cs|
  {
    hide PutLoad, ValidLoad, PayloadSize;
    WithoutUuidsIsValid(cs);
    assert ValidLoad(cs[0]);
    WithoutUuidBytes(cs[0], big);
    var size := LoadSize(cs[0]);
    assert WithoutUuids(cs)[1..] == WithoutUuids(cs[1..]) && WithoutUuids(cs)[0] == WithoutUuid(cs[0]);
    if i < size {
      if UuidAt(cs[1..], size, i) { UuidsAbove(cs[1..], size, i); }
    } else {
      UuidsShift(cs[1..], size, 0, i);
      WithoutUuidsBytes(cs[1..], big, i - size);
    }
  }

  lemma {:induction false} UuidsShift(cs: seq<Load>, d: nat, at: nat, p: int)
    ensures UuidAt(cs, at + d, p) <==> UuidAt(cs, at, p - d)
    decreases |cs|
  {
    if cs != [] { UuidsShift(cs[1..], d, at + LoadSize(cs[0]), p); }
  }

  /** The UUID pass over a written image, wherever it stands in a file, gives the image written without its UUIDs. */
  lemma {:induction false} UuidPassOnWritten(before: seq<byte>, m: Image, after: seq<byte>)
    requires ValidImage(m)
    ensures var bare := m.(loads := WithoutUuids(m.loads));
            && ValidImage(bare)
            && ZeroUuids(before + PutImage(m) + after, |before|, |PutImage(m)|) == before + PutImage(bare) + after
  {
    WithoutUuidsIsValid(m.loads);
    hide ZeroUuids, WithoutUuids, PutImage, ImageSize, ValidLoads;
    WrittenByte(m, 0);
    var (x, y) := (PutImage(m), PutImage(m.(loads := WithoutUuids(m.loads))));
    forall p | 0 <= p < |before + x + after| ensures ZeroUuids(before + x + after, |before|, |x|)[p] == (before + y + after)[p] {
      UuidPassByte(before, m, after, p);
    }
  }

  lemma {:induction false} Middle(before: seq<byte>, x: seq<byte>, after: seq<byte>)
    ensures HasAt(before + x + after, |before|, x)
  {
  }

  /** A byte is zeroed in a file exactly when it is zeroed in the part of the file that it belongs to. */
  lemma {:induction false} Spliced(before: seq<byte>, x: seq<byte>, y: seq<byte>, after: seq<byte>, p: nat, zero: bool)
    requires p < |before + x + after| && |x| == |y| && (zero ==> |before| <= p < |before| + |x|)
    requires |before| <= p < |before| + |x| ==> y[p - |before|] == if zero then 0 else x[p - |before|]
    ensures (before + y + after)[p] == if zero then 0 else (before + x + after)[p]
  {
  }

  lemma {:induction false} UuidPassByte(before: seq<byte>, m: Image, after: seq<byte>, p: nat)
    requires ValidImage(m) && p < |before + PutImage(m) + after|
    ensures var bare := m.(loads := WithoutUuids(m.loads));
            && ValidImage(bare) && |PutImage(bare)| == |PutImage(m)|
            && ZeroUuids(before + PutImage(m) + after, |before|, |PutImage(m)|)[p] == (before + PutImage(bare) + after)[p]
  {
    hide *;
    var (x, i) := (PutImage(m), p - |before|);
    WrittenByte(m, i);
    Middle(before, x, after);
    ImageParts(before + x + after, |before|, m);
    ZeroedByte(before + x + after, |before|, m, p);
    Spliced(before, x, PutImage(m.(loads := WithoutUuids(m.loads))), after, p, UuidAt(m.loads, HeaderSize(m.wide), i));
  }

  lemma {:induction false} ZeroedByte(s: seq<byte>, base: nat, m: Image, p: nat)
    requires ValidImage(m) && HasAt(s, base, PutImage(m)) && p < |s| && base + ImageSize(m) <= |s|
    ensures ZeroUuids(s, base, ImageSize(m))[p] == if UuidAt(m.loads, HeaderSize(m.wide), p - base) then 0 else s[p]
  {
    hide Commands, PutLoads, PutImage, HasAt, InUuid, UuidAt, Laid;
    ReadsImage(Stubs, s, base, m);
    UuidsAre(m.loads, base + HeaderSize(m.wide), p);
    UuidsShift(m.loads, base, HeaderSize(m.wide), p);
  }

  lemma {:induction false} WrittenByte(m: Image, i: int)
    requires ValidImage(m)
    ensures var bare := m.(loads := WithoutUuids(m.loads));
            && ValidImage(bare) && |PutImage(bare)| == |PutImage(m)|
            && (0 <= i < |PutImage(m)| ==>
                  PutImage(bare)[i] == if UuidAt(m.loads, HeaderSize(m.wide), i) then 0 else PutImage(m)[i])
            && (UuidAt(m.loads, HeaderSize(m.wide), i) ==> 0 <= i < |PutImage(m)|)
  {
    hide PutLoads, ValidLoads, LoadsSize, UuidAt, WithoutUuids;
    WithoutUuidsIsValid(m.loads);
    var j := i - HeaderSize(m.wide);
    UuidsShift(m.loads, HeaderSize(m.wide), 0, i);
    if UuidAt(m.loads, 0, j) {
      UuidsAbove(m.loads, 0, j);
      UuidsBelow(m.loads, 0, j);
    }
    if 0 <= j < LoadsSize(m.loads) {
      WithoutUuidsBytes(m.loads, m.big, j);
    }
  }

  lemma {:induction false} UuidsBelow(cs: seq<Load>, at: nat, p: int)
    requires ValidLoads(cs) && UuidAt(cs, at, p)
    ensures p < at + LoadsSize(cs)
    decreases |cs|
  {
    assert ValidLoad(cs[0]);
    if !(cs[0].Uuid? && at + 8 <= p < at + 24) {
      UuidsBelow(cs[1..], at + LoadSize(cs[0]), p);
    }
  }
}
