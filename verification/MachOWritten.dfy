/** The canonical bytes of a Mach-O image that was written out field by field, and the table of a universal file. */
module MachOWritten {
  import opened Bytes
  import opened MachOImage
  import opened MachOSections
  import opened MachOCanonical
  import opened MachOWriter
  import MachOGot
  import MachOFat
  import opened Collections

  // ---------------------------------------------------------------- stubs and texts, as they were written

  /** A segment of the image was written with this section; `all`: 32-bit segments count. */
  ghost predicate Written(m: Image, sec: Section, all: bool) {
    exists j, k :: 0 <= j < |m.loads| && m.loads[j].Segment? && (all || m.loads[j].wide)
                   && 0 <= k < |m.loads[j].headers| && m.loads[j].headers[k].section == sec
  }

  predicate In(sec: Section, i: int) { sec.offset <= i < sec.offset + sec.size }

  predicate IsStub(m: Image, sec: Section) {
    && sec.segname == "__TEXT" && (sec.sectname == "__stubs" || sec.sectname == "__objc_stubs")
    && sec.offset + sec.size <= ImageSize(m)
  }

  predicate IsText(m: Image, sec: Section) {
    m.wide && sec.segname == "__TEXT" && sec.sectname == "__text" && sec.offset + sec.size <= ImageSize(m)
  }

  /** Byte `i` of the image is in a section of linker stubs. */
  ghost predicate InStub(m: Image, i: int) {
    exists sec :: Written(m, sec, true) && IsStub(m, sec) && In(sec, i)
  }

  /** Byte `i` of the image is in this section of instructions. */
  ghost predicate InText(m: Image, sec: Section, i: int) {
    Written(m, sec, false) && IsText(m, sec) && In(sec, i)
  }

  /** Where the commands end. */
  function LoadsEnd(m: Image): nat { HeaderSize(m.wide) + LoadsSize(m.loads) }

  /** Stubs and texts lie after the commands, and neither two texts nor a text and a stub share a byte. */
  ghost predicate Apart(m: Image) {
    var texts := FoundIn(GotLoads(map[]), m.loads);
    && (forall i :: InStub(m, i) ==> i >= LoadsEnd(m))
    && (forall sec, i :: InText(m, sec, i) ==> i >= LoadsEnd(m) && !InStub(m, i))
    && (forall j, k, i :: 0 <= j < k < |texts| && InText(m, texts[j], i) ==> !InText(m, texts[k], i))
  }

  // ---------------------------------------------------------------- what a pass finds is what was written

  lemma {:induction false} FoundIsWritten(pass: Pass, cs: seq<Load>, n: nat)
    requires n < |FoundIn(pass, cs)|
    ensures exists j, k :: 0 <= j < |cs| && cs[j].Segment? && (pass.Stubs? || cs[j].wide) && 0 <= k < |cs[j].headers|
                           && cs[j].headers[k].section == FoundIn(pass, cs)[n]
    decreases |cs|
  {
    var first := Found(pass, cs[0]);
    if n < |first| {
      assert cs[0].headers[n].section == FoundIn(pass, cs)[n];
    } else {
      FoundIsWritten(pass, cs[1..], n - |first|);
      var j, k :| 0 <= j < |cs[1..]| && cs[1..][j].Segment? && (pass.Stubs? || cs[1..][j].wide) && 0 <= k < |cs[1..][j].headers|
                  && cs[1..][j].headers[k].section == FoundIn(pass, cs[1..])[n - |first|];
      assert cs[j + 1] == cs[1..][j];
      assert cs[j + 1].headers[k].section == FoundIn(pass, cs)[n];
    }
  }

  lemma {:induction false} WrittenIsFound(pass: Pass, cs: seq<Load>, j: nat, k: nat)
    requires j < |cs| && cs[j].Segment? && (pass.Stubs? || cs[j].wide) && k < |cs[j].headers|
    ensures cs[j].headers[k].section in FoundIn(pass, cs)
    decreases |cs|
  {
    if j == 0 {
      assert Found(pass, cs[0])[k] == cs[0].headers[k].section;
      assert FoundIn(pass, cs)[k] == cs[0].headers[k].section;
    } else {
      WrittenIsFound(pass, cs[1..], j - 1, k);
      assert cs[1..][j - 1] == cs[j];
    }
  }

  lemma {:induction false} FoundIff(pass: Pass, m: Image, sec: Section)
    ensures sec in FoundIn(pass, m.loads) <==> Written(m, sec, pass.Stubs?)
  {
    hide FoundIn;
    if sec in FoundIn(pass, m.loads) {
      var n :| 0 <= n < |FoundIn(pass, m.loads)| && FoundIn(pass, m.loads)[n] == sec;
      FoundIsWritten(pass, m.loads, n);
    }
    if Written(m, sec, pass.Stubs?) {
      var j, k :| 0 <= j < |m.loads| && m.loads[j].Segment? && (pass.Stubs? || m.loads[j].wide)
                  && 0 <= k < |m.loads[j].headers| && m.loads[j].headers[k].section == sec;
      WrittenIsFound(pass, m.loads, j, k);
    }
  }

  /** The bytes that the stub pass touches are the written stubs. */
  lemma {:induction false} StubsAre(m: Image, base: nat, p: int)
    ensures Touched(Stubs, base, ImageSize(m), FoundIn(Stubs, m.loads), p) <==> InStub(m, p - base)
  {
    hide FoundIn, Written, ImageSize;
    var secs := FoundIn(Stubs, m.loads);
    if Touched(Stubs, base, ImageSize(m), secs, p) {
      var k :| 0 <= k < |secs| && Touches(Stubs, base, ImageSize(m), secs[k], p);
      FoundIff(Stubs, m, secs[k]);
    }
    if InStub(m, p - base) {
      var sec :| Written(m, sec, true) && IsStub(m, sec) && In(sec, p - base);
      FoundIff(Stubs, m, sec);
      var k :| 0 <= k < |secs| && secs[k] == sec;
      assert Touches(Stubs, base, ImageSize(m), secs[k], p);
    }
  }

  /** And a section of the GOT pass touches a byte exactly when it is a text with that byte. */
  lemma {:induction false} TextIs(m: Image, base: nat, slots: map<int, int>, k: nat, p: int)
    requires m.wide && k < |FoundIn(GotLoads(slots), m.loads)|
    ensures var sec := FoundIn(GotLoads(slots), m.loads)[k];
            Touches(GotLoads(slots), base, ImageSize(m), sec, p) <==> InText(m, sec, p - base)
  {
    hide FoundIn, Written, ImageSize;
    FoundIff(GotLoads(slots), m, FoundIn(GotLoads(slots), m.loads)[k]);
  }

  lemma {:induction false} FoundAlike(cs: seq<Load>, slots: map<int, int>)
    ensures FoundIn(GotLoads(slots), cs) == FoundIn(GotLoads(map[]), cs)
  {
    if cs != [] { FoundAlike(cs[1..], slots); }
  }

  // ---------------------------------------------------------------- the canonical bytes of a written image

  lemma {:induction false} StubsAreClear(s: seq<byte>, base: nat, m: Image)
    requires ValidImage(m) && HasAt(s, base, PutImage(m)) && Apart(m) && base + ImageSize(m) <= |s|
    ensures Clear(Stubs, s, base, ImageSize(m))
  {
    hide FoundIn, Written, ImageSize, ImageSections, PutImage, ValidImage, HasAt, TableEnd, Touches, LoadsSize, InStub, InText;
    ReadsImage(Stubs, s, base, m);
    var secs := FoundIn(Stubs, m.loads);
    forall k, p | 0 <= k < |secs| && Touches(Stubs, base, ImageSize(m), secs[k], p) ensures p >= TableEnd(s, base, ImageSize(m)) {
      StubsAre(m, base, p);
    }
  }

  /** The stub pass zeroes exactly the bytes that were written as stubs. */
  lemma {:induction false} StubPassOnWritten(s: seq<byte>, base: nat, m: Image, p: nat)
    requires ValidImage(m) && HasAt(s, base, PutImage(m)) && Apart(m) && p < |s|
    ensures base + ImageSize(m) <= |s|
    ensures ImagePass(Stubs, s, base, ImageSize(m))[p] == if InStub(m, p - base) then 0 else s[p]
  {
    hide FoundIn, ImageSize, ImageSections, PutImage, ValidImage, HasAt, TableEnd, Touched, LoadsSize, Apart, InStub, Commands, ImagePass, Clear;
    ReadsImage(Stubs, s, base, m);
    StubsAreClear(s, base, m);
    StubPassZeroesStubs(s, base, ImageSize(m));
    StubsAre(m, base, p);
  }

  lemma {:induction false} TextsAreClear(s: seq<byte>, base: nat, m: Image, slots: map<int, int>)
    requires ValidImage(m) && HasAt(s, base, PutImage(m)) && Apart(m) && base + ImageSize(m) <= |s|
    ensures Clear(GotLoads(slots), s, base, ImageSize(m))
    ensures DisjointSections(GotLoads(slots), base, ImageSize(m), ImageSections(GotLoads(slots), s, base, ImageSize(m)))
  {
    hide FoundIn, Written, ImageSize, ImageSections, PutImage, ValidImage, HasAt, TableEnd, Touches, LoadsSize, InStub, InText;
    ReadsImage(GotLoads(slots), s, base, m);
    FoundAlike(m.loads, slots);
    var texts := FoundIn(GotLoads(slots), m.loads);
    if m.wide {
      forall k, p | 0 <= k < |texts| ensures Touches(GotLoads(slots), base, ImageSize(m), texts[k], p) <==> InText(m, texts[k], p - base) {
        TextIs(m, base, slots, k, p);
      }
    }
  }

  lemma {:induction false} WrittenIsWellLaidOut(s: seq<byte>, base: nat, m: Image, slots: map<int, int>)
    requires ValidImage(m) && HasAt(s, base, PutImage(m)) && Apart(m) && base + ImageSize(m) <= |s|
    ensures WellLaidOut(s, base, ImageSize(m), slots)
  {
    hide FoundIn, Written, ImageSize, ImageSections, PutImage, ValidImage, HasAt, Touches, LoadsSize, InStub, InText, Clear, DisjointSections;
    ReadsImage(GotLoads(slots), s, base, m);
    ReadsImage(Stubs, s, base, m);
    StubsAreClear(s, base, m);
    TextsAreClear(s, base, m, slots);
    forall p ensures !(Touched(Stubs, base, ImageSize(m), FoundIn(Stubs, m.loads), p)
                       && Touched(GotLoads(slots), base, ImageSize(m), ImageSections(GotLoads(slots), s, base, ImageSize(m)), p)) {
      TextIsNoStub(base, m, slots, p);
    }
  }

  lemma {:induction false} TextIsNoStub(base: nat, m: Image, slots: map<int, int>, p: int)
    requires Apart(m)
    ensures m.wide && Touched(GotLoads(slots), base, ImageSize(m), FoundIn(GotLoads(slots), m.loads), p) ==>
              !Touched(Stubs, base, ImageSize(m), FoundIn(Stubs, m.loads), p)
  {
    hide FoundIn, Written, ImageSize, Touches, LoadsSize, InStub, InText;
    var texts := FoundIn(GotLoads(slots), m.loads);
    if m.wide && Touched(GotLoads(slots), base, ImageSize(m), texts, p) {
      var k :| 0 <= k < |texts| && Touches(GotLoads(slots), base, ImageSize(m), texts[k], p);
      TextIs(m, base, slots, k, p);
      StubsAre(m, base, p);
    }
  }

  /** Byte `i` of the image is in some section of instructions. */
  ghost predicate InSomeText(m: Image, i: int) { exists sec :: InText(m, sec, i) }

  lemma {:induction false} TextsAre(s: seq<byte>, base: nat, m: Image, slots: map<int, int>, p: int)
    requires ValidImage(m) && HasAt(s, base, PutImage(m)) && base + ImageSize(m) <= |s|
    ensures Touched(GotLoads(slots), base, ImageSize(m), ImageSections(GotLoads(slots), s, base, ImageSize(m)), p)
       <==> InSomeText(m, p - base)
  {
    hide FoundIn, Written, ImageSize, ImageSections, PutImage, ValidImage, HasAt, Touches, InText;
    ReadsImage(GotLoads(slots), s, base, m);
    var texts := FoundIn(GotLoads(slots), m.loads);
    if m.wide && Touched(GotLoads(slots), base, ImageSize(m), texts, p) {
      var k :| 0 <= k < |texts| && Touches(GotLoads(slots), base, ImageSize(m), texts[k], p);
      TextIs(m, base, slots, k, p);
    }
    if InSomeText(m, p - base) {
      var sec :| InText(m, sec, p - base);
      TextIsFound(base, m, slots, sec, p);
    }
  }

  lemma {:induction false} TextIsFound(base: nat, m: Image, slots: map<int, int>, sec: Section, p: int)
    requires InText(m, sec, p - base)
    ensures m.wide
    ensures exists k :: 0 <= k < |FoundIn(GotLoads(slots), m.loads)| && FoundIn(GotLoads(slots), m.loads)[k] == sec
    ensures Touches(GotLoads(slots), base, ImageSize(m), sec, p)
  {
    hide FoundIn, Written, ImageSize;
    FoundIff(GotLoads(slots), m, sec);
    var k :| 0 <= k < |FoundIn(GotLoads(slots), m.loads)| && FoundIn(GotLoads(slots), m.loads)[k] == sec;
    TextIs(m, base, slots, k, p);
  }

  lemma {:induction false} ActIsTextPass(slots: map<int, int>, s: seq<byte>, base: nat, size: nat, sec: Section, p: int)
    requires base + size <= |s| && Touches(GotLoads(slots), base, size, sec, p)
    ensures base + sec.offset + sec.size <= |s|
    ensures Act(GotLoads(slots), s, base, size, sec) == MachOGot.TextPass(s, base + sec.offset, sec.size, sec.address, slots)
  {
    hide MachOGot.TextPass;
  }

  lemma {:induction false} CanonicalTextOfWritten(s: seq<byte>, base: nat, m: Image, slots: map<int, int>, sec: Section, p: nat)
    requires ValidImage(m) && HasAt(s, base, PutImage(m)) && Apart(m) && p < |s| && base + ImageSize(m) <= |s|
    requires InText(m, sec, p - base)
    ensures base + sec.offset + sec.size <= |s|
    ensures CanonicalImage(s, base, ImageSize(m), slots)[p]
         == MachOGot.TextPass(s, base + sec.offset, sec.size, sec.address, slots)[p]
  {
    hide *;
    var (size, texts) := (ImageSize(m), FoundIn(GotLoads(slots), m.loads));
    ReadsImage(GotLoads(slots), s, base, m);
    WrittenIsWellLaidOut(s, base, m, slots);
    CanonicalBytes(s, base, size, slots, p);
    TextIsFound(base, m, slots, sec, p);
    var k :| 0 <= k < |texts| && texts[k] == sec;
    CanonicalTextByte(s, CanonicalImage(s, base, size, slots), base, size, slots, k, p);
    ActIsTextPass(slots, s, base, size, sec, p);
  }

  lemma {:induction false} CanonicalElsewhere(s: seq<byte>, base: nat, m: Image, slots: map<int, int>, p: nat)
    requires ValidImage(m) && HasAt(s, base, PutImage(m)) && Apart(m) && p < |s| && base + ImageSize(m) <= |s|
    ensures var (r, zero) := (CanonicalImage(s, base, ImageSize(m), slots), UuidAt(m.loads, HeaderSize(m.wide), p - base) || InStub(m, p - base));
            (zero ==> r[p] == 0) && (!zero && !InSomeText(m, p - base) ==> r[p] == s[p])
  {
    hide FoundIn, Written, ImageSize, ImageSections, PutImage, ValidImage, HasAt, CanonicalImage, Apart, WellLaidOut, Commands,
         InUuid, UuidAt, InStub, InSomeText, Touched, TextsByte, Laid;
    ReadsImage(Stubs, s, base, m);
    WrittenIsWellLaidOut(s, base, m, slots);
    CanonicalBytes(s, base, ImageSize(m), slots, p);
    ValidLoadsOf(m);
    UuidsAre(m.loads, base + HeaderSize(m.wide), p);
    UuidsShift(m.loads, base, HeaderSize(m.wide), p);
    StubsAre(m, base, p);
    TextsAre(s, base, m, slots, p);
  }

  lemma {:induction false} ValidLoadsOf(m: Image)
    requires ValidImage(m)
    ensures ValidLoads(m.loads)
  {
  }

  /** Every byte of the canonical form of a written image: UUIDs and stubs are zero, the words of each text are rewritten where
      it was written to be, and everything else is as it was. */
  lemma {:induction false} CanonicalOfWritten(s: seq<byte>, base: nat, m: Image, slots: map<int, int>, p: nat)
    requires ValidImage(m) && HasAt(s, base, PutImage(m)) && Apart(m) && p < |s|
    ensures base + ImageSize(m) <= |s|
    ensures var (r, i) := (CanonicalImage(s, base, ImageSize(m), slots), p - base);
            var zero := UuidAt(m.loads, HeaderSize(m.wide), i) || InStub(m, i);
            && (zero ==> r[p] == 0)
            && (forall sec :: InText(m, sec, i) ==>
                  && base + sec.offset + sec.size <= |s|
                  && r[p] == MachOGot.TextPass(s, base + sec.offset, sec.size, sec.address, slots)[p])
            && (!zero && !InSomeText(m, i) ==> r[p] == s[p])
  {
    hide ImageSize, PutImage, ValidImage, HasAt, CanonicalImage, Apart, UuidAt, InStub, InSomeText, InText, MachOGot.TextPass,
         TableOf, ShapeOf, PutLoads;
    ImageParts(s, base, m);
    CanonicalElsewhere(s, base, m, slots, p);
    var i := p - base;
    forall sec | InText(m, sec, i)
      ensures base + sec.offset + sec.size <= |s|
      ensures CanonicalImage(s, base, ImageSize(m), slots)[p]
           == MachOGot.TextPass(s, base + sec.offset, sec.size, sec.address, slots)[p]
    {
      CanonicalTextOfWritten(s, base, m, slots, sec, p);
    }
  }

  // ---------------------------------------------------------------- universal files

  /** An entry of the table: where an image is, and what is said of it before and after that. */
  datatype Entry = Entry(about: seq<byte>, slice: MachOFat.Slice, more: seq<byte>)

  predicate ValidEntry(e: Entry, wide: bool) {
    && |e.about| == 8
    && (if wide then e.slice.offset < U64 && e.slice.size < U64 && |e.more| == 8
        else e.slice.offset < 0x1_0000_0000 && e.slice.size < 0x1_0000_0000 && |e.more| == 4)
  }

  function PutEntry(e: Entry, big: bool, wide: bool): (r: seq<byte>)
    requires ValidEntry(e, wide)
    ensures |r| == MachOFat.ArchSize(wide)
  {
    e.about + if wide then PutU64(e.slice.offset, big) + (PutU64(e.slice.size, big) + e.more)
              else PutU32(e.slice.offset, big) + (PutU32(e.slice.size, big) + e.more)
  }

  function EntriesSize(n: nat, wide: bool): nat { if wide then 32 * n else 20 * n }

  function PutEntries(es: seq<Entry>, big: bool, wide: bool): (r: seq<byte>)
    requires forall i :: 0 <= i < |es| ==> ValidEntry(es[i], wide)
    ensures |r| == EntriesSize(|es|, wide)
  {
    if es == [] then [] else PutEntry(es[0], big, wide) + PutEntries(es[1..], big, wide)
  }

  function FatMagic(big: bool, wide: bool): (r: seq<byte>)
    ensures |r| == 4
  {
    PutU32(if wide then 0xCAFE_BABF else 0xCAFE_BABE, big)
  }

  function PutFat(es: seq<Entry>, big: bool, wide: bool, body: seq<byte>): seq<byte>
    requires |es| < 0x1_0000_0000 && forall i :: 0 <= i < |es| ==> ValidEntry(es[i], wide)
  {
    FatMagic(big, wide) + (PutU32(|es|, big) + (PutEntries(es, big, wide) + body))
  }

  /** The entries whose image lies in a file of this length. */
  function Fitting(es: seq<Entry>, length: nat): seq<MachOFat.Slice> {
    if es == [] then []
    else (if es[0].slice.offset + es[0].slice.size <= length then [es[0].slice] else []) + Fitting(es[1..], length)
  }

  lemma {:induction false} ReadsEntry(s: seq<byte>, at: nat, e: Entry, big: bool, wide: bool)
    requires ValidEntry(e, wide) && HasAt(s, at, PutEntry(e, big, wide))
    ensures at + MachOFat.ArchSize(wide) <= |s| && MachOFat.SliceAt(s, big, wide, at) == e.slice
  {
    assert at + |PutEntry(e, big, wide)| <= |s|;
    hide PutU32, PutU64, HasAt, U32At, U64At;
    if wide {
      HasParts(s, at, e.about, PutU64(e.slice.offset, big) + (PutU64(e.slice.size, big) + e.more));
      HasParts(s, at + 8, PutU64(e.slice.offset, big), PutU64(e.slice.size, big) + e.more);
      HasParts(s, at + 16, PutU64(e.slice.size, big), e.more);
      ReadsU64(s, at + 8, e.slice.offset, big);
      ReadsU64(s, at + 16, e.slice.size, big);
    } else {
      HasParts(s, at, e.about, PutU32(e.slice.offset, big) + (PutU32(e.slice.size, big) + e.more));
      HasParts(s, at + 8, PutU32(e.slice.offset, big), PutU32(e.slice.size, big) + e.more);
      HasParts(s, at + 12, PutU32(e.slice.size, big), e.more);
      ReadsU32(s, at + 8, e.slice.offset, big);
      ReadsU32(s, at + 12, e.slice.size, big);
    }
  }

  lemma {:induction false} ReadsEntries(s: seq<byte>, at: nat, es: seq<Entry>, big: bool, wide: bool)
    requires forall i :: 0 <= i < |es| ==> ValidEntry(es[i], wide)
    requires HasAt(s, at, PutEntries(es, big, wide))
    ensures MachOFat.SlicesFrom(s, big, wide, at, |es|) == Fitting(es, |s|)
    decreases |es|
  {
    hide PutEntry, HasAt, MachOFat.SliceAt, MachOFat.AllFit;
    if es != [] {
      HasParts(s, at, PutEntry(es[0], big, wide), PutEntries(es[1..], big, wide));
      ReadsEntry(s, at, es[0], big, wide);
      ReadsEntries(s, at + MachOFat.ArchSize(wide), es[1..], big, wide);
    }
  }

  lemma {:induction false} FatMagicBytes()
    ensures FatMagic(true, false) == [0xCA, 0xFE, 0xBA, 0xBE] && FatMagic(true, true) == [0xCA, 0xFE, 0xBA, 0xBF]
    ensures FatMagic(false, false) == [0xBE, 0xBA, 0xFE, 0xCA] && FatMagic(false, true) == [0xBF, 0xBA, 0xFE, 0xCA]
  {
  }

  lemma {:induction false} ReadsContainer(s: seq<byte>, n: word, big: bool, wide: bool)
    requires HasAt(s, 0, FatMagic(big, wide)) && HasAt(s, 4, PutU32(n, big))
    ensures MachOFat.ContainerOf(s) == Some(MachOFat.Container(big, wide, n))
  {
    hide FatMagic, U32At, PutU32;
    ReadsU32(s, 4, n, big);
    FatMagicBytes();
    assert s[0..4] == s[..4];
  }

  /** Reading a written universal file gives exactly the images that were listed and lie in the file. */
  lemma {:induction false} ReadsFat(es: seq<Entry>, big: bool, wide: bool, body: seq<byte>)
    requires |es| < 0x1_0000_0000 && forall i :: 0 <= i < |es| ==> ValidEntry(es[i], wide)
    ensures var s := PutFat(es, big, wide, body);
            MachOFat.ContainerOf(s) == Some(MachOFat.Container(big, wide, |es|)) && MachOFat.Slices(s) == Fitting(es, |s|)
  {
    var (s, entries) := (PutFat(es, big, wide, body), PutEntries(es, big, wide));
    assert HasAt(s, 0, FatMagic(big, wide) + (PutU32(|es|, big) + (entries + body)));
    hide HasAt, FatMagic, PutU32, PutEntries, PutFat, MachOFat.ContainerOf, MachOFat.SlicesFrom, Fitting, ValidEntry, MachOFat.AllFit;
    HasParts(s, 0, FatMagic(big, wide), PutU32(|es|, big) + (entries + body));
    HasParts(s, 4, PutU32(|es|, big), entries + body);
    HasParts(s, 8, entries, body);
    ReadsContainer(s, |es|, big, wide);
    ReadsEntries(s, 8, es, big, wide);
  }
}
