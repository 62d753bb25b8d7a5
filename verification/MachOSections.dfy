/** The two passes that follow section headers out of the command table: zeroing linker stubs
    and re-pointing the GOT loads of the text section. Both write wherever a header says,
    while the walk is still reading headers from the same buffer. */
module MachOSections {
  import opened Bytes
  import opened MachOImage
  import MachOGot

  // ---------------------------------------------------------------- section headers

  datatype Section = Section(segname: string, sectname: string, address: nat, size: nat, offset: nat)

  /** The bytes before the first NUL, without those that are not ASCII. */
  function DecodeName(raw: seq<byte>): string {
    if raw == [] || raw[0] == 0 then ""
    else (if raw[0] < 128 then [raw[0] as char] else []) + DecodeName(raw[1..])
  }

  function SegmentHeaderSize(wide: bool): nat { if wide then 72 else 56 }

  function SectionSize(wide: bool): nat { if wide then 80 else 68 }

  function SectionAt(s: seq<byte>, big: bool, wide: bool, at: nat): Section
    requires at + SectionSize(wide) <= |s|
  {
    var (sectname, segname) := (DecodeName(s[at..at + 16]), DecodeName(s[at + 16..at + 32]));
    if wide then
      Section(segname, sectname, U64At(s, at + 32, big), U64At(s, at + 40, big), U32At(s, at + 48, big))
    else
      Section(segname, sectname, U32At(s, at + 32, big), U32At(s, at + 36, big), U32At(s, at + 40, big))
  }

  // ---------------------------------------------------------------- what a pass does to a section

  datatype Pass = Stubs | GotLoads(slots: map<int, int>)

  /** The section is one the pass rewrites, and lies inside the image. */
  predicate Applies(pass: Pass, base: nat, size: nat, sec: Section) {
    && sec.segname == "__TEXT"
    && (if pass.Stubs? then sec.sectname == "__stubs" || sec.sectname == "__objc_stubs" else sec.sectname == "__text")
    && base + sec.offset + sec.size <= base + size
  }

  function Act(pass: Pass, s: seq<byte>, base: nat, size: nat, sec: Section): (r: seq<byte>)
    requires base + size <= |s|
    ensures |r| == |s|
  {
    if !Applies(pass, base, size, sec) then s
    else
      match pass
      case Stubs => Zeroed(s, base + sec.offset, base + sec.offset + sec.size)
      case GotLoads(slots) => MachOGot.TextPass(s, base + sec.offset, sec.size, sec.address, slots)
  }

  function Zeroed(s: seq<byte>, lo: nat, hi: nat): (r: seq<byte>)
    ensures |r| == |s|
  {
    seq(|s|, p requires 0 <= p < |s| => if lo <= p < hi then 0 else s[p])
  }

  /** The bytes of the buffer that `Act` may change. */
  predicate Touches(pass: Pass, base: nat, size: nat, sec: Section, p: int) {
    Applies(pass, base, size, sec) && base + sec.offset <= p < base + sec.offset + sec.size
  }

  lemma {:induction false} ActTouches(pass: Pass, s: seq<byte>, base: nat, size: nat, sec: Section, p: nat)
    requires base + size <= |s| && p < |s| && !Touches(pass, base, size, sec, p)
    ensures Act(pass, s, base, size, sec)[p] == s[p]
  {
    hide MachOGot.Rewrite;
  }

  // ---------------------------------------------------------------- the passes as the source runs them

  /** The inner loop, reading each header from the buffer as it is by then. */
  function SectionPass(pass: Pass, s: seq<byte>, base: nat, size: nat, big: bool, wide: bool, at: nat, n: nat, end: nat): (r: seq<byte>)
    requires base + size <= |s| && end <= |s|
    ensures |r| == |s|
    decreases n
  {
    if n == 0 || at + SectionSize(wide) > end then s
    else SectionPass(pass, Act(pass, s, base, size, SectionAt(s, big, wide, at)), base, size, big, wide,
                     at + SectionSize(wide), n - 1, end)
  }

  predicate Visits(pass: Pass, cmd: word) {
    cmd == LC_SEGMENT_64 || (cmd == LC_SEGMENT && pass.Stubs?)
  }

  function NsectsAt(s: seq<byte>, big: bool, c: Command): word
    requires c.at + c.size <= |s| && c.size >= SegmentHeaderSize(c.cmd == LC_SEGMENT_64)
  {
    U32At(s, c.at + if c.cmd == LC_SEGMENT_64 then 64 else 48, big)
  }

  /** One iteration of the outer loop. */
  function OneCommand(pass: Pass, s: seq<byte>, base: nat, size: nat, big: bool, c: Command): (r: seq<byte>)
    requires base + size <= |s| && c.at + c.size <= |s|
    ensures |r| == |s|
  {
    var wide := c.cmd == LC_SEGMENT_64;
    if Visits(pass, c.cmd) && c.size >= SegmentHeaderSize(wide)
    then SectionPass(pass, s, base, size, big, wide, c.at + SegmentHeaderSize(wide), NsectsAt(s, big, c), c.at + c.size)
    else s
  }

  /** The outer loop. */
  function CommandPass(pass: Pass, s: seq<byte>, base: nat, size: nat, big: bool, at: nat, n: nat): (r: seq<byte>)
    requires base + size <= |s|
    ensures |r| == |s|
    decreases n
  {
    if n == 0 || at + 8 > base + size then s
    else
      var c := Command(at, U32At(s, at, big), U32At(s, at + 4, big));
      if c.size < 8 || at + c.size > base + size then s
      else CommandPass(pass, OneCommand(pass, s, base, size, big, c), base, size, big, at + c.size, n - 1)
  }

  /** Only 64-bit images have their GOT loads rewritten. */
  predicate Eligible(pass: Pass, s: seq<byte>, base: nat, size: nat)
    requires base + size <= |s|
  {
    pass.Stubs? || ShapeOf(s, base, size) in {Thin(false, true), Thin(true, true)}
  }

  function ImagePass(pass: Pass, s: seq<byte>, base: nat, size: nat): (r: seq<byte>)
    requires base + size <= |s|
    ensures |r| == |s|
  {
    var t := TableOf(s, base, size);
    if Eligible(pass, s, base, size) then CommandPass(pass, s, base, size, t.big, t.at, t.n) else s
  }

  // ---------------------------------------------------------------- the sections of the original image

  function SectionsFrom(s: seq<byte>, big: bool, wide: bool, at: nat, n: nat, end: nat): seq<Section>
    requires end <= |s|
    decreases n
  {
    if n == 0 || at + SectionSize(wide) > end then []
    else [SectionAt(s, big, wide, at)] + SectionsFrom(s, big, wide, at + SectionSize(wide), n - 1, end)
  }

  function SectionsOf(pass: Pass, s: seq<byte>, big: bool, c: Command): seq<Section>
    requires c.at + c.size <= |s|
  {
    var wide := c.cmd == LC_SEGMENT_64;
    if Visits(pass, c.cmd) && c.size >= SegmentHeaderSize(wide)
    then SectionsFrom(s, big, wide, c.at + SegmentHeaderSize(wide), NsectsAt(s, big, c), c.at + c.size)
    else []
  }

  function AllSections(pass: Pass, s: seq<byte>, big: bool, at: nat, n: nat, limit: nat): seq<Section>
    requires limit <= |s|
    decreases n
  {
    if n == 0 || at + 8 > limit then []
    else
      var c := Command(at, U32At(s, at, big), U32At(s, at + 4, big));
      if c.size < 8 || at + c.size > limit then []
      else SectionsOf(pass, s, big, c) + AllSections(pass, s, big, at + c.size, n - 1, limit)
  }

  /** Every section header of the image that the pass reads, in order. */
  function ImageSections(pass: Pass, s: seq<byte>, base: nat, size: nat): seq<Section>
    requires base + size <= |s|
  {
    var t := TableOf(s, base, size);
    if Eligible(pass, s, base, size) then AllSections(pass, s, t.big, t.at, t.n, base + size) else []
  }

  function Fold(pass: Pass, s: seq<byte>, base: nat, size: nat, secs: seq<Section>): (r: seq<byte>)
    requires base + size <= |s|
    ensures |r| == |s|
    decreases |secs|
  {
    if secs == [] then s else Fold(pass, Act(pass, s, base, size, secs[0]), base, size, secs[1..])
  }

  /** No section that the pass rewrites reaches below `floor`. */
  ghost predicate Above(pass: Pass, base: nat, size: nat, secs: seq<Section>, floor: nat) {
    forall k, p :: 0 <= k < |secs| && Touches(pass, base, size, secs[k], p) ==> p >= floor
  }

  ghost predicate AgreeBelow(s: seq<byte>, t: seq<byte>, floor: nat) {
    |s| == |t| && forall p :: 0 <= p < |s| && p < floor ==> s[p] == t[p]
  }

  // ---------------------------------------------------------------- separating the walk from the writes

  lemma {:induction false} SectionAtFrame(s: seq<byte>, t: seq<byte>, big: bool, wide: bool, at: nat)
    requires at + SectionSize(wide) <= |s| == |t| && forall p :: at <= p < at + SectionSize(wide) ==> s[p] == t[p]
    ensures SectionAt(t, big, wide, at) == SectionAt(s, big, wide, at)
  {
    hide DecodeName;
    assert t[at..at + 16] == s[at..at + 16] && t[at + 16..at + 32] == s[at + 16..at + 32];
    SameU32(s, t, at + 32, big);
    SameU32(s, t, at + 36, big);
    SameU32(s, t, at + 40, big);
    if wide {
      SameU32(s, t, at + 44, big);
      SameU32(s, t, at + 48, big);
    }
    hide U32At;
  }

  lemma {:induction false} ActAgrees(pass: Pass, s: seq<byte>, base: nat, size: nat, sec: Section, floor: nat)
    requires base + size <= |s|
    requires forall p :: Touches(pass, base, size, sec, p) ==> p >= floor
    ensures AgreeBelow(s, Act(pass, s, base, size, sec), floor)
  {
    hide Act, Touches;
    forall p | 0 <= p < |s| && p < floor ensures Act(pass, s, base, size, sec)[p] == s[p] {
      ActTouches(pass, s, base, size, sec, p);
    }
  }

  lemma {:induction false} FoldConcat(pass: Pass, s: seq<byte>, base: nat, size: nat, a: seq<Section>, b: seq<Section>)
    requires base + size <= |s|
    ensures Fold(pass, s, base, size, a + b) == Fold(pass, Fold(pass, s, base, size, a), base, size, b)
    decreases |a|
  {
    hide Act;
    if a == [] {
      assert a + b == b;
    } else {
      assert (a + b)[1..] == a[1..] + b;
      FoldConcat(pass, Act(pass, s, base, size, a[0]), base, size, a[1..], b);
    }
  }

  lemma {:induction false} SectionPassIsFold(pass: Pass, s0: seq<byte>, s: seq<byte>, base: nat, size: nat, big: bool, wide: bool,
                                             at: nat, n: nat, end: nat, floor: nat)
    requires AgreeBelow(s0, s, floor) && base + size <= |s| && end <= |s| && end <= floor
    requires Above(pass, base, size, SectionsFrom(s0, big, wide, at, n, end), floor)
    ensures SectionPass(pass, s, base, size, big, wide, at, n, end) ==
            Fold(pass, s, base, size, SectionsFrom(s0, big, wide, at, n, end))
    ensures AgreeBelow(s0, SectionPass(pass, s, base, size, big, wide, at, n, end), floor)
    decreases n
  {
    hide Act, Touches, SectionAt;
    if n > 0 && at + SectionSize(wide) <= end {
      var secs := SectionsFrom(s0, big, wide, at, n, end);
      SectionAtFrame(s0, s, big, wide, at);
      ActAgrees(pass, s, base, size, secs[0], floor);
      assert secs[1..] == SectionsFrom(s0, big, wide, at + SectionSize(wide), n - 1, end);
      SectionPassIsFold(pass, s0, Act(pass, s, base, size, secs[0]), base, size, big, wide, at + SectionSize(wide), n - 1, end, floor);
    }
  }

  lemma {:induction false} OneCommandIsFold(pass: Pass, s0: seq<byte>, s: seq<byte>, base: nat, size: nat, big: bool, c: Command, floor: nat)
    requires AgreeBelow(s0, s, floor) && base + size <= |s| && c.at + c.size <= |s| && c.at + c.size <= floor
    requires Above(pass, base, size, SectionsOf(pass, s0, big, c), floor)
    ensures OneCommand(pass, s, base, size, big, c) == Fold(pass, s, base, size, SectionsOf(pass, s0, big, c))
    ensures AgreeBelow(s0, OneCommand(pass, s, base, size, big, c), floor)
  {
    hide Above, SectionPass, Fold, SectionsFrom;
    var wide := c.cmd == LC_SEGMENT_64;
    if Visits(pass, c.cmd) && c.size >= SegmentHeaderSize(wide) {
      SameU32(s0, s, c.at + if wide then 64 else 48, big);
      SectionPassIsFold(pass, s0, s, base, size, big, wide, c.at + SegmentHeaderSize(wide), NsectsAt(s0, big, c), c.at + c.size, floor);
    } else {
      EmptyFold(pass, s, base, size);
    }
  }

  lemma {:induction false} EmptyFold(pass: Pass, s: seq<byte>, base: nat, size: nat)
    requires base + size <= |s|
    ensures Fold(pass, s, base, size, []) == s
  {
  }

  lemma {:induction false} CommandPassIsFold(pass: Pass, s0: seq<byte>, s: seq<byte>, base: nat, size: nat, big: bool,
                                             at: nat, n: nat, floor: nat)
    requires AgreeBelow(s0, s, floor) && base + size <= |s|
    requires WalkEnd(s0, big, at, n, base + size) <= floor
    requires Above(pass, base, size, AllSections(pass, s0, big, at, n, base + size), floor)
    ensures CommandPass(pass, s, base, size, big, at, n) ==
            Fold(pass, s, base, size, AllSections(pass, s0, big, at, n, base + size))
    ensures AgreeBelow(s0, CommandPass(pass, s, base, size, big, at, n), floor)
    decreases n
  {
    hide U32At, OneCommand, Touches, SectionsOf;
    if n > 0 && at + 8 <= base + size {
      SameU32(s0, s, at, big);
      SameU32(s0, s, at + 4, big);
      var c := Command(at, U32At(s0, at, big), U32At(s0, at + 4, big));
      if c.size >= 8 && at + c.size <= base + size {
        var a := SectionsOf(pass, s0, big, c);
        var b := AllSections(pass, s0, big, at + c.size, n - 1, base + size);
        AboveParts(pass, base, size, a, b, floor);
        OneCommandIsFold(pass, s0, s, base, size, big, c, floor);
        CommandPassIsFold(pass, s0, OneCommand(pass, s, base, size, big, c), base, size, big, at + c.size, n - 1, floor);
        FoldConcat(pass, s, base, size, a, b);
      }
    }
  }

  lemma {:induction false} AboveParts(pass: Pass, base: nat, size: nat, a: seq<Section>, b: seq<Section>, floor: nat)
    requires Above(pass, base, size, a + b, floor)
    ensures Above(pass, base, size, a, floor) && Above(pass, base, size, b, floor)
  {
    hide Touches;
    forall k | 0 <= k < |a| ensures (a + b)[k] == a[k] {}
    forall k | 0 <= k < |b| ensures (a + b)[|a| + k] == b[k] {}
  }

  // ---------------------------------------------------------------- whole images

  /** Every section the pass rewrites lies beyond the command table. */
  ghost predicate Clear(pass: Pass, s: seq<byte>, base: nat, size: nat)
    requires base + size <= |s|
  {
    Above(pass, base, size, ImageSections(pass, s, base, size), TableEnd(s, base, size))
  }

  /** Then the pass does to each section, one after another, what the original headers say. */
  lemma {:induction false} ImagePassIsFold(pass: Pass, s: seq<byte>, base: nat, size: nat)
    requires base + size <= |s| && Clear(pass, s, base, size)
    ensures ImagePass(pass, s, base, size) == Fold(pass, s, base, size, ImageSections(pass, s, base, size))
    ensures AgreeBelow(s, ImagePass(pass, s, base, size), TableEnd(s, base, size))
  {
    hide TableOf, Above, AgreeBelow, CommandPass, Fold, WalkEnd, ShapeOf;
    var t := TableOf(s, base, size);
    AgreeSelf(s, TableEnd(s, base, size));
    if Eligible(pass, s, base, size) {
      CommandPassIsFold(pass, s, s, base, size, t.big, t.at, t.n, TableEnd(s, base, size));
    } else {
      EmptyFold(pass, s, base, size);
    }
  }

  lemma {:induction false} AgreeSelf(s: seq<byte>, floor: nat)
    ensures AgreeBelow(s, s, floor)
  {
  }

  /** `t` is `s` from `at` to `floor`, except in UUIDs. */
  ghost predicate AgreeButUuids(s: seq<byte>, t: seq<byte>, cs: seq<Command>, at: nat, floor: nat) {
    |s| == |t| && forall p :: at <= p < floor && p < |s| && !InUuid(cs, p) ==> s[p] == t[p]
  }

  lemma {:induction false} AllSectionsFrame(pass: Pass, s: seq<byte>, t: seq<byte>, big: bool, at: nat, n: nat, limit: nat, floor: nat)
    requires limit <= |s| && AgreeButUuids(s, t, Walk(s, big, at, n, limit), at, floor)
    requires WalkEnd(s, big, at, n, limit) <= floor
    ensures AllSections(pass, t, big, at, n, limit) == AllSections(pass, s, big, at, n, limit)
    decreases n
  {
    hide U32At, SectionsOf, AgreeButUuids, Walk;
    if n > 0 && at + 8 <= limit {
      FirstCommandAgrees(s, t, big, at, n, limit, floor);
      SameU32(s, t, at, big);
      SameU32(s, t, at + 4, big);
      var c := Command(at, U32At(s, at, big), U32At(s, at + 4, big));
      if c.size >= 8 && at + c.size <= limit {
        AllSectionsFrame(pass, s, t, big, at + c.size, n - 1, limit, floor);
        SectionsOfFrame(pass, s, t, big, c);
      }
    }
  }

  lemma {:induction false} WalkButUuids(s: seq<byte>, t: seq<byte>, big: bool, at: nat, n: nat, limit: nat, floor: nat)
    requires limit <= |s| && AgreeButUuids(s, t, Walk(s, big, at, n, limit), at, floor)
    requires WalkEnd(s, big, at, n, limit) <= floor
    ensures Walk(t, big, at, n, limit) == Walk(s, big, at, n, limit)
    ensures WalkEnd(t, big, at, n, limit) == WalkEnd(s, big, at, n, limit)
    decreases n
  {
    hide U32At, AgreeButUuids;
    if n > 0 && at + 8 <= limit {
      FirstCommandAgrees(s, t, big, at, n, limit, floor);
      SameU32(s, t, at, big);
      SameU32(s, t, at + 4, big);
      var size := U32At(s, at + 4, big);
      if size >= 8 && at + size <= limit {
        WalkButUuids(s, t, big, at + size, n - 1, limit, floor);
      }
    }
  }

  lemma {:induction false} FirstCommandAgrees(s: seq<byte>, t: seq<byte>, big: bool, at: nat, n: nat, limit: nat, floor: nat)
    requires limit <= |s| && AgreeButUuids(s, t, Walk(s, big, at, n, limit), at, floor)
    requires WalkEnd(s, big, at, n, limit) <= floor && n > 0 && at + 8 <= limit
    ensures |s| == |t| && forall p :: at <= p < at + 8 ==> s[p] == t[p]
    ensures var (cmd, size) := (U32At(s, at, big), U32At(s, at + 4, big));
            size >= 8 && at + size <= limit ==>
              && AgreeButUuids(s, t, Walk(s, big, at + size, n - 1, limit), at + size, floor)
              && (cmd != LC_UUID ==> forall p :: at <= p < at + size ==> s[p] == t[p])
  {
    hide U32At, InUuid;
    var cs := Walk(s, big, at, n, limit);
    var (cmd, size) := (U32At(s, at, big), U32At(s, at + 4, big));
    forall p | at <= p < at + 8 || (size >= 8 && cmd != LC_UUID && at + size <= limit && at <= p < at + size)
      ensures s[p] == t[p]
    {
      NoUuidHere(s, big, at, n, limit, p);
    }
    if size >= 8 && at + size <= limit {
      assert cs[1..] == Walk(s, big, at + size, n - 1, limit);
      forall p | at + size <= p < floor && p < |s| && !InUuid(cs[1..], p) ensures s[p] == t[p] {
        UuidOfRest(cs, p);
      }
    }
  }

  lemma {:induction false} NoUuidHere(s: seq<byte>, big: bool, at: nat, n: nat, limit: nat, p: nat)
    requires limit <= |s| && n > 0 && at + 8 <= limit
    requires var (cmd, size) := (U32At(s, at, big), U32At(s, at + 4, big));
             at <= p < at + 8 || (size >= 8 && cmd != LC_UUID && at + size <= limit && at <= p < at + size)
    ensures !InUuid(Walk(s, big, at, n, limit), p)
  {
    hide U32At;
    var cs := Walk(s, big, at, n, limit);
    if InUuid(cs, p) {
      var k :| 0 <= k < |cs| && cs[k].cmd == LC_UUID && cs[k].size >= 24 && cs[k].at + 8 <= p < cs[k].at + 24;
      if k > 0 {
        WalkLaysOut(s, big, at + U32At(s, at + 4, big), n - 1, limit, k - 1);
      }
      assert false;
    }
  }

  lemma {:induction false} UuidOfRest(cs: seq<Command>, p: nat)
    requires |cs| > 0 && p >= cs[0].at + cs[0].size && !InUuid(cs[1..], p)
    ensures !InUuid(cs, p)
  {
    assert forall k :: 1 <= k < |cs| ==> cs[k] == cs[1..][k - 1];
  }

  lemma {:induction false} SectionsOfFrame(pass: Pass, s: seq<byte>, t: seq<byte>, big: bool, c: Command)
    requires |s| == |t| && c.at + c.size <= |s|
    requires c.cmd != LC_UUID ==> forall p :: c.at <= p < c.at + c.size ==> s[p] == t[p]
    ensures SectionsOf(pass, t, big, c) == SectionsOf(pass, s, big, c)
  {
    hide U32At, SectionsFrom;
    var wide := c.cmd == LC_SEGMENT_64;
    if Visits(pass, c.cmd) && c.size >= SegmentHeaderSize(wide) {
      SameU32(s, t, c.at + if wide then 64 else 48, big);
      SectionsFromFrame(s, t, big, wide, c.at + SegmentHeaderSize(wide), NsectsAt(s, big, c), c.at + c.size);
    }
  }

  lemma {:induction false} SectionsFromFrame(s: seq<byte>, t: seq<byte>, big: bool, wide: bool, at: nat, n: nat, end: nat)
    requires end <= |s| == |t| && forall p :: at <= p < end ==> s[p] == t[p]
    ensures SectionsFrom(t, big, wide, at, n, end) == SectionsFrom(s, big, wide, at, n, end)
    decreases n
  {
    hide SectionAt;
    if n > 0 && at + SectionSize(wide) <= end {
      SectionAtFrame(s, t, big, wide, at);
      SectionsFromFrame(s, t, big, wide, at + SectionSize(wide), n - 1, end);
    }
  }
}
