/** Universal files: several images in one file, found through a table at its start. */
module MachOFat {
  import opened Bytes
  import opened Collections
  import opened MachOImage
  import opened MachOSections
  import opened MachOCanonical
  import opened MachOForm
  import MachOGotMeaning
  import MachOInPlace

  // ---------------------------------------------------------------- one image's passes stay in its bytes

  /** A pass over one image of the file. */
  datatype Work = Uuids | Sections(pass: Pass)

  function Apply(work: Work, s: seq<byte>, base: nat, size: nat): (r: seq<byte>)
    requires base + size <= |s|
    ensures |r| == |s|
  {
    match work
    case Uuids => ZeroUuids(s, base, size)
    case Sections(pass) => ImagePass(pass, s, base, size)
  }

  /** The files agree on one image. */
  ghost predicate Same(s: seq<byte>, t: seq<byte>, base: nat, size: nat) {
    base + size <= |s| == |t| && forall p :: base <= p < base + size ==> s[p] == t[p]
  }

  /** The files agree everywhere else. */
  ghost predicate SameElsewhere(s: seq<byte>, t: seq<byte>, base: nat, size: nat) {
    base + size <= |s| == |t| && forall p :: 0 <= p < |s| && !(base <= p < base + size) ==> s[p] == t[p]
  }

  lemma {:induction false} ActInside(pass: Pass, s: seq<byte>, t: seq<byte>, base: nat, size: nat, sec: Section)
    requires Same(s, t, base, size)
    ensures Same(Act(pass, s, base, size, sec), Act(pass, t, base, size, sec), base, size)
    ensures SameElsewhere(s, Act(pass, s, base, size, sec), base, size)
  {
    hide Act, Touches;
    forall p | 0 <= p < |s|
      ensures base <= p < base + size ==> Act(pass, s, base, size, sec)[p] == Act(pass, t, base, size, sec)[p]
      ensures !(base <= p < base + size) ==> Act(pass, s, base, size, sec)[p] == s[p]
    {
      if Touches(pass, base, size, sec, p) {
        forall q | 0 <= q < |s| && Touches(pass, base, size, sec, q) ensures s[q] == t[q] {
          TouchesInside(pass, base, size, sec, q);
        }
        TouchesInside(pass, base, size, sec, p);
        ActLocal(pass, s, t, base, size, sec, p);
      } else {
        ActTouches(pass, s, base, size, sec, p);
        ActTouches(pass, t, base, size, sec, p);
      }
    }
  }

  lemma {:induction false} SectionPassInside(pass: Pass, s: seq<byte>, t: seq<byte>, base: nat, size: nat, big: bool, wide: bool,
                                             at: nat, n: nat, end: nat)
    requires Same(s, t, base, size) && base <= at && end <= base + size
    ensures Same(SectionPass(pass, s, base, size, big, wide, at, n, end), SectionPass(pass, t, base, size, big, wide, at, n, end),
                 base, size)
    ensures SameElsewhere(s, SectionPass(pass, s, base, size, big, wide, at, n, end), base, size)
    decreases n
  {
    hide Act, SectionAt;
    if n > 0 && at + SectionSize(wide) <= end {
      SectionAtFrame(s, t, big, wide, at);
      var sec := SectionAt(s, big, wide, at);
      ActInside(pass, s, t, base, size, sec);
      SectionPassInside(pass, Act(pass, s, base, size, sec), Act(pass, t, base, size, sec), base, size, big, wide,
                        at + SectionSize(wide), n - 1, end);
    }
  }

  lemma {:induction false} OneCommandInside(pass: Pass, s: seq<byte>, t: seq<byte>, base: nat, size: nat, big: bool, c: Command)
    requires Same(s, t, base, size) && base <= c.at && c.at + c.size <= base + size
    ensures Same(OneCommand(pass, s, base, size, big, c), OneCommand(pass, t, base, size, big, c), base, size)
    ensures SameElsewhere(s, OneCommand(pass, s, base, size, big, c), base, size)
  {
    hide U32At, SectionPass;
    var wide := c.cmd == LC_SEGMENT_64;
    if Visits(pass, c.cmd) && c.size >= SegmentHeaderSize(wide) {
      SameU32(s, t, c.at + if wide then 64 else 48, big);
      SectionPassInside(pass, s, t, base, size, big, wide, c.at + SegmentHeaderSize(wide), NsectsAt(s, big, c), c.at + c.size);
    }
  }

  lemma {:induction false} CommandPassInside(pass: Pass, s: seq<byte>, t: seq<byte>, base: nat, size: nat, big: bool, at: nat, n: nat)
    requires Same(s, t, base, size) && base <= at
    ensures Same(CommandPass(pass, s, base, size, big, at, n), CommandPass(pass, t, base, size, big, at, n), base, size)
    ensures SameElsewhere(s, CommandPass(pass, s, base, size, big, at, n), base, size)
    decreases n
  {
    hide U32At, OneCommand;
    if n > 0 && at + 8 <= base + size {
      SameU32(s, t, at, big);
      SameU32(s, t, at + 4, big);
      var c := Command(at, U32At(s, at, big), U32At(s, at + 4, big));
      if c.size >= 8 && at + c.size <= base + size {
        OneCommandInside(pass, s, t, base, size, big, c);
        CommandPassInside(pass, OneCommand(pass, s, base, size, big, c), OneCommand(pass, t, base, size, big, c),
                          base, size, big, at + c.size, n - 1);
      }
    }
  }

  lemma {:induction false} TableInside(s: seq<byte>, t: seq<byte>, base: nat, size: nat)
    requires Same(s, t, base, size)
    ensures ShapeOf(s, base, size) == ShapeOf(t, base, size) && TableOf(s, base, size) == TableOf(t, base, size)
    ensures base <= TableOf(s, base, size).at
  {
    assert size >= 4 ==> s[base..base + 4] == t[base..base + 4];
    var shape := ShapeOf(s, base, size);
    if shape.Thin? && size >= HeaderSize(shape.wide) {
      SameU32(s, t, base + 16, shape.big);
    }
  }

  lemma {:induction false} UuidsInside(s: seq<byte>, t: seq<byte>, base: nat, size: nat)
    requires Same(s, t, base, size)
    ensures Same(ZeroUuids(s, base, size), ZeroUuids(t, base, size), base, size)
    ensures SameElsewhere(s, ZeroUuids(s, base, size), base, size)
  {
    hide ShapeOf, TableOf;
    TableInside(s, t, base, size);
    var table := TableOf(s, base, size);
    WalkInside(s, t, table.big, table.at, table.n, base + size);
    var cs := Commands(s, base, size);
    forall p | 0 <= p < |s| && InUuid(cs, p) ensures base <= p < base + size {
      var k :| 0 <= k < |cs| && cs[k].cmd == LC_UUID && cs[k].size >= 24 && cs[k].at + 8 <= p < cs[k].at + 24;
      WalkLaysOut(s, table.big, table.at, table.n, base + size, k);
    }
  }

  lemma {:induction false} WalkInside(s: seq<byte>, t: seq<byte>, big: bool, at: nat, n: nat, limit: nat)
    requires limit <= |s| == |t| && forall p :: at <= p < limit ==> s[p] == t[p]
    ensures Walk(s, big, at, n, limit) == Walk(t, big, at, n, limit)
    decreases n
  {
    hide U32At;
    if n > 0 && at + 8 <= limit {
      SameU32(s, t, at, big);
      SameU32(s, t, at + 4, big);
      var size := U32At(s, at + 4, big);
      if size >= 8 && at + size <= limit {
        WalkInside(s, t, big, at + size, n - 1, limit);
      }
    }
  }

  /** Each pass reads and writes the bytes of its image only. */
  lemma {:induction false} ApplyInside(work: Work, s: seq<byte>, t: seq<byte>, base: nat, size: nat)
    requires Same(s, t, base, size)
    ensures Same(Apply(work, s, base, size), Apply(work, t, base, size), base, size)
    ensures SameElsewhere(s, Apply(work, s, base, size), base, size)
  {
    hide ZeroUuids, TableOf, ShapeOf, CommandPass;
    match work
    case Uuids => UuidsInside(s, t, base, size);
    case Sections(pass) =>
      TableInside(s, t, base, size);
      var table := TableOf(s, base, size);
      CommandPassInside(pass, s, t, base, size, table.big, table.at, table.n);
  }

  // ---------------------------------------------------------------- the table of images

  datatype Slice = Slice(offset: nat, size: nat)

  datatype Container = Container(big: bool, wide: bool, n: nat)

  function ContainerOf(s: seq<byte>): Option<Container> {
    if |s| < 8 then None
    else
      var magic := s[..4];
      if magic == [0xCA, 0xFE, 0xBA, 0xBE] then Some(Container(true, false, U32At(s, 4, true)))
      else if magic == [0xCA, 0xFE, 0xBA, 0xBF] then Some(Container(true, true, U32At(s, 4, true)))
      else if magic == [0xBE, 0xBA, 0xFE, 0xCA] then Some(Container(false, false, U32At(s, 4, false)))
      else if magic == [0xBF, 0xBA, 0xFE, 0xCA] then Some(Container(false, true, U32At(s, 4, false)))
      else None
  }

  function ArchSize(wide: bool): nat { if wide then 32 else 20 }

  function SliceAt(s: seq<byte>, big: bool, wide: bool, at: nat): Slice
    requires at + ArchSize(wide) <= |s|
  {
    if wide then Slice(U64At(s, at + 8, big), U64At(s, at + 16, big)) else Slice(U32At(s, at + 8, big), U32At(s, at + 12, big))
  }

  predicate Fits(length: nat, slice: Slice) { slice.offset + slice.size <= length }

  /** The loop over the table, which reads each entry from the buffer as it is by then. */
  function FatLoop(work: Work, s: seq<byte>, big: bool, wide: bool, at: nat, n: nat): (r: seq<byte>)
    ensures |r| == |s|
    decreases n
  {
    if n == 0 || at + ArchSize(wide) > |s| then s
    else
      var slice := SliceAt(s, big, wide, at);
      FatLoop(work, if Fits(|s|, slice) then Apply(work, s, slice.offset, slice.size) else s, big, wide, at + ArchSize(wide), n - 1)
  }

  /** A pass over the whole file: over each image of a universal file, or over the one image. */
  function FilePass(work: Work, s: seq<byte>): (r: seq<byte>)
    ensures |r| == |s|
  {
    match ContainerOf(s)
    case None => Apply(work, s, 0, |s|)
    case Some(c) => FatLoop(work, s, c.big, c.wide, 8, c.n)
  }

  function CanonicalFile(s: seq<byte>, slots: map<int, int>): (r: seq<byte>)
    ensures |r| == |s|
  {
    FilePass(Sections(GotLoads(slots)), FilePass(Sections(Stubs), FilePass(Uuids, s)))
  }

  // ---------------------------------------------------------------- the images of the original file

  function SlicesFrom(s: seq<byte>, big: bool, wide: bool, at: nat, n: nat): (slices: seq<Slice>)
    ensures AllFit(|s|, slices)
    decreases n
  {
    if n == 0 || at + ArchSize(wide) > |s| then []
    else
      var slice := SliceAt(s, big, wide, at);
      (if Fits(|s|, slice) then [slice] else []) + SlicesFrom(s, big, wide, at + ArchSize(wide), n - 1)
  }

  function EntriesEnd(length: nat, wide: bool, at: nat, n: nat): (end: nat)
    ensures end >= at
    decreases n
  {
    if n == 0 || at + ArchSize(wide) > length then at else EntriesEnd(length, wide, at + ArchSize(wide), n - 1)
  }

  function Slices(s: seq<byte>): (slices: seq<Slice>)
    ensures AllFit(|s|, slices)
  {
    match ContainerOf(s)
    case None => []
    case Some(c) => SlicesFrom(s, c.big, c.wide, 8, c.n)
  }

  function TableTop(s: seq<byte>): nat {
    match ContainerOf(s)
    case None => 0
    case Some(c) => EntriesEnd(|s|, c.wide, 8, c.n)
  }

  predicate InSlice(slice: Slice, p: int) { slice.offset <= p < slice.offset + slice.size }

  ghost predicate Disjoint(slices: seq<Slice>) {
    forall i, j, p :: 0 <= i < j < |slices| && InSlice(slices[i], p) ==> !InSlice(slices[j], p)
  }

  ghost predicate AllFit(length: nat, slices: seq<Slice>) {
    forall i :: 0 <= i < |slices| ==> Fits(length, slices[i])
  }

  ghost predicate AllAbove(slices: seq<Slice>, floor: nat) {
    forall i :: 0 <= i < |slices| ==> slices[i].offset >= floor
  }

  /** Images do not overlap each other or the table that lists them. */
  ghost predicate Packed(s: seq<byte>) {
    ContainerOf(s).Some? && Disjoint(Slices(s)) && AllAbove(Slices(s), TableTop(s))
  }

  function FoldSlices(work: Work, s: seq<byte>, slices: seq<Slice>): (r: seq<byte>)
    requires AllFit(|s|, slices)
    ensures |r| == |s|
    decreases |slices|
  {
    if slices == [] then s else FoldSlices(work, Apply(work, s, slices[0].offset, slices[0].size), slices[1..])
  }

  // ---------------------------------------------------------------- the loop is a fold over the original images

  lemma {:induction false} SliceAtFrame(s: seq<byte>, t: seq<byte>, big: bool, wide: bool, at: nat)
    requires at + ArchSize(wide) <= |s| == |t| && forall p :: at <= p < at + ArchSize(wide) ==> s[p] == t[p]
    ensures SliceAt(s, big, wide, at) == SliceAt(t, big, wide, at)
  {
    hide U32At;
    SameU32(s, t, at + 8, big);
    SameU32(s, t, at + 12, big);
    if wide {
      SameU32(s, t, at + 16, big);
      SameU32(s, t, at + 20, big);
    }
  }

  lemma {:induction false} FatLoopIsFold(work: Work, s0: seq<byte>, s: seq<byte>, big: bool, wide: bool, at: nat, n: nat, floor: nat)
    requires |s| == |s0| && AgreeBelow(s0, s, floor) && EntriesEnd(|s|, wide, at, n) <= floor
    requires AllAbove(SlicesFrom(s0, big, wide, at, n), floor)
    ensures FatLoop(work, s, big, wide, at, n) == FoldSlices(work, s, SlicesFrom(s0, big, wide, at, n))
    decreases n
  {
    hide SliceAt, Apply;
    if n > 0 && at + ArchSize(wide) <= |s| {
      SliceAtFrame(s0, s, big, wide, at);
      var slice := SliceAt(s, big, wide, at);
      var rest := SlicesFrom(s0, big, wide, at + ArchSize(wide), n - 1);
      var all := SlicesFrom(s0, big, wide, at, n);
      if Fits(|s|, slice) {
        var s' := Apply(work, s, slice.offset, slice.size);
        assert all == [slice] + rest && all[0] == slice && all[1..] == rest;
        assert forall i :: 0 <= i < |rest| ==> rest[i] == all[i + 1];
        ApplyInside(work, s, s, slice.offset, slice.size);
        FatLoopIsFold(work, s0, s', big, wide, at + ArchSize(wide), n - 1, floor);
      } else {
        assert all == rest;
        FatLoopIsFold(work, s0, s, big, wide, at + ArchSize(wide), n - 1, floor);
      }
    }
  }

  // ---------------------------------------------------------------- each image by itself

  lemma {:induction false} FoldElsewhere(work: Work, s: seq<byte>, slices: seq<Slice>, p: nat)
    requires AllFit(|s|, slices) && p < |s| && forall i :: 0 <= i < |slices| ==> !InSlice(slices[i], p)
    ensures FoldSlices(work, s, slices)[p] == s[p]
    decreases |slices|
  {
    hide Apply;
    if slices != [] {
      var (first, rest) := (slices[0], slices[1..]);
      assert forall i :: 0 <= i < |rest| ==> rest[i] == slices[i + 1];
      ApplyInside(work, s, s, first.offset, first.size);
      FoldElsewhere(work, Apply(work, s, first.offset, first.size), rest, p);
    }
  }

  lemma {:induction false} FoldInSlice(work: Work, s: seq<byte>, slices: seq<Slice>, k: nat, p: nat)
    requires AllFit(|s|, slices) && Disjoint(slices) && k < |slices| && InSlice(slices[k], p)
    ensures FoldSlices(work, s, slices)[p] == Apply(work, s, slices[k].offset, slices[k].size)[p]
    decreases |slices|
  {
    hide Apply;
    var (first, rest) := (slices[0], slices[1..]);
    var s' := Apply(work, s, first.offset, first.size);
    assert forall i :: 0 <= i < |rest| ==> rest[i] == slices[i + 1];
    assert Disjoint(rest);
    if k == 0 {
      FoldElsewhere(work, s', rest, p);
    } else {
      FoldInSlice(work, s', rest, k - 1, p);
      ApplyInside(work, s, s, first.offset, first.size);
      forall q | slices[k].offset <= q < slices[k].offset + slices[k].size ensures s'[q] == s[q] {
        assert InSlice(slices[k], q);
        assert !InSlice(first, q);
      }
      ApplyInside(work, s', s, slices[k].offset, slices[k].size);
    }
  }

  /** A pass over a packed universal file: each image gets what it would get alone, and the rest stays. */
  lemma {:induction false} FilePassPerSlice(work: Work, s: seq<byte>)
    requires Packed(s)
    ensures Slices(FilePass(work, s)) == Slices(s) && Packed(FilePass(work, s))
    ensures forall k, p :: 0 <= k < |Slices(s)| && InSlice(Slices(s)[k], p) ==>
              FilePass(work, s)[p] == Apply(work, s, Slices(s)[k].offset, Slices(s)[k].size)[p]
    ensures forall p :: 0 <= p < |s| && (forall k :: 0 <= k < |Slices(s)| ==> !InSlice(Slices(s)[k], p)) ==>
              FilePass(work, s)[p] == s[p]
  {
    hide Apply, SlicesFrom, Disjoint;
    var c := ContainerOf(s).value;
    hide ContainerOf;
    var slices := Slices(s);
    FatLoopIsFold(work, s, s, c.big, c.wide, 8, c.n, TableTop(s));
    var r := FilePass(work, s);
    forall k, p | 0 <= k < |slices| && InSlice(slices[k], p) ensures r[p] == Apply(work, s, slices[k].offset, slices[k].size)[p] {
      FoldInSlice(work, s, slices, k, p);
    }
    forall p | 0 <= p < |s| && (forall k :: 0 <= k < |slices| ==> !InSlice(slices[k], p)) ensures r[p] == s[p] {
      FoldElsewhere(work, s, slices, p);
    }
    SameHeaderSameSlices(s, r);
  }

  lemma {:induction false} SameHeaderSameSlices(s: seq<byte>, t: seq<byte>)
    requires ContainerOf(s).Some? && |s| == |t| && forall p :: 0 <= p < |s| && p < TableTop(s) ==> s[p] == t[p]
    ensures ContainerOf(t) == ContainerOf(s) && TableTop(t) == TableTop(s) && Slices(t) == Slices(s)
  {
    assert s[..4] == t[..4];
    SameU32(s, t, 4, ContainerOf(s).value.big);
    var c := ContainerOf(s).value;
    SlicesFrame(s, t, c.big, c.wide, 8, c.n);
  }

  lemma {:induction false} SlicesFrame(s: seq<byte>, t: seq<byte>, big: bool, wide: bool, at: nat, n: nat)
    requires |s| == |t| && forall p :: at <= p < |s| && p < EntriesEnd(|s|, wide, at, n) ==> s[p] == t[p]
    ensures SlicesFrom(s, big, wide, at, n) == SlicesFrom(t, big, wide, at, n)
    decreases n
  {
    hide SliceAt;
    if n > 0 && at + ArchSize(wide) <= |s| {
      SliceAtFrame(s, t, big, wide, at);
      SlicesFrame(s, t, big, wide, at + ArchSize(wide), n - 1);
    }
  }

  // ---------------------------------------------------------------- the canonical form of a universal file

  /** Each image of a packed universal file is canonicalised as if it were alone, and every other byte stays. */
  lemma {:induction false} CanonicalPerSlice(s: seq<byte>, slots: map<int, int>)
    requires Packed(s)
    ensures Slices(CanonicalFile(s, slots)) == Slices(s) && Packed(CanonicalFile(s, slots))
    ensures forall k, p :: 0 <= k < |Slices(s)| && InSlice(Slices(s)[k], p) ==>
              CanonicalFile(s, slots)[p] == CanonicalImage(s, Slices(s)[k].offset, Slices(s)[k].size, slots)[p]
    ensures forall p :: 0 <= p < |s| && (forall k :: 0 <= k < |Slices(s)| ==> !InSlice(Slices(s)[k], p)) ==>
              CanonicalFile(s, slots)[p] == s[p]
  {
    hide FilePass, Slices, Packed, CanonicalImage;
    var s1 := FilePass(Uuids, s);
    var s2 := FilePass(Sections(Stubs), s1);
    FilePassPerSlice(Uuids, s);
    FilePassPerSlice(Sections(Stubs), s1);
    FilePassPerSlice(Sections(GotLoads(slots)), s2);
    var r := CanonicalFile(s, slots);
    forall k, p | 0 <= k < |Slices(s)| && InSlice(Slices(s)[k], p)
      ensures r[p] == CanonicalImage(s, Slices(s)[k].offset, Slices(s)[k].size, slots)[p]
    {
      var (o, n) := (Slices(s)[k].offset, Slices(s)[k].size);
      assert r[p] == Apply(Sections(GotLoads(slots)), s2, o, n)[p];
      SlicePasses(s, s1, s2, o, n, slots, p);
    }
  }

  lemma {:induction false} SlicePasses(s: seq<byte>, s1: seq<byte>, s2: seq<byte>, base: nat, size: nat, slots: map<int, int>, p: nat)
    requires base + size <= |s| == |s1| == |s2| && base <= p < base + size
    requires forall q :: InSlice(Slice(base, size), q) ==> s1[q] == Apply(Uuids, s, base, size)[q]
    requires forall q :: InSlice(Slice(base, size), q) ==> s2[q] == Apply(Sections(Stubs), s1, base, size)[q]
    ensures Apply(Sections(GotLoads(slots)), s2, base, size)[p] == CanonicalImage(s, base, size, slots)[p]
  {
    var (t1, stubs, loads) := (Apply(Uuids, s, base, size), Sections(Stubs), Sections(GotLoads(slots)));
    var t2 := Apply(stubs, t1, base, size);
    assert CanonicalImage(s, base, size, slots) == Apply(loads, t2, base, size);
    hide Apply;
    assert forall q :: base <= q < base + size ==> InSlice(Slice(base, size), q);
    ApplyInside(stubs, s1, t1, base, size);
    ApplyInside(loads, s2, t2, base, size);
  }

  lemma {:induction false} CanonicalInside(s: seq<byte>, t: seq<byte>, base: nat, size: nat, slots: map<int, int>)
    requires Same(s, t, base, size)
    ensures Same(CanonicalImage(s, base, size, slots), CanonicalImage(t, base, size, slots), base, size)
  {
    var (s1, t1) := (Apply(Uuids, s, base, size), Apply(Uuids, t, base, size));
    var (s2, t2) := (Apply(Sections(Stubs), s1, base, size), Apply(Sections(Stubs), t1, base, size));
    ApplyInside(Uuids, s, t, base, size);
    ApplyInside(Sections(Stubs), s1, t1, base, size);
    ApplyInside(Sections(GotLoads(slots)), s2, t2, base, size);
  }

  /** Every image of the file has the layout a linker produces. */
  ghost predicate AllWellLaidOut(s: seq<byte>, slots: map<int, int>) {
    forall k :: 0 <= k < |Slices(s)| ==> WellLaidOut(s, Slices(s)[k].offset, Slices(s)[k].size, slots)
  }

  /** In every image of the file, the rewritten loads stop where they are sent. */
  ghost predicate AllTextsStop(s: seq<byte>, slots: map<int, int>) {
    forall k :: 0 <= k < |Slices(s)| ==> TextsStop(s, Slices(s)[k].offset, Slices(s)[k].size, slots)
  }

  /** For every slot map: canonicalising a universal file again changes nothing exactly when the loads of its images stop. */
  lemma {:induction false} CanonicalFileTwiceIff(s: seq<byte>, slots: map<int, int>)
    requires Packed(s) && AllWellLaidOut(s, slots)
    ensures CanonicalFile(CanonicalFile(s, slots), slots) == CanonicalFile(s, slots) <==> AllTextsStop(s, slots)
  {
    hide CanonicalFile, CanonicalImage, Slices, Packed, WellLaidOut, TextsStop;
    var r := CanonicalFile(s, slots);
    var (rr, slices) := (CanonicalFile(r, slots), Slices(s));
    CanonicalPerSlice(s, slots);
    CanonicalPerSlice(r, slots);
    forall k | 0 <= k < |slices|
      ensures TextsStop(s, slices[k].offset, slices[k].size, slots) <==> Same(r, rr, slices[k].offset, slices[k].size)
    {
      SliceTwiceIff(s, r, rr, slices[k], slots);
    }
    if AllTextsStop(s, slots) {
      forall p | 0 <= p < |s| ensures rr[p] == r[p] {
        if k :| 0 <= k < |slices| && InSlice(slices[k], p) {
          assert Same(r, rr, slices[k].offset, slices[k].size);
        }
      }
    }
  }

  /** One image of the file: its bytes are fixed exactly when its loads stop. */
  lemma {:induction false} SliceTwiceIff(s: seq<byte>, r: seq<byte>, rr: seq<byte>, slice: Slice, slots: map<int, int>)
    requires |s| == |r| == |rr| && Fits(|s|, slice) && WellLaidOut(s, slice.offset, slice.size, slots)
    requires forall p :: InSlice(slice, p) ==> r[p] == CanonicalImage(s, slice.offset, slice.size, slots)[p]
    requires forall p :: InSlice(slice, p) ==> rr[p] == CanonicalImage(r, slice.offset, slice.size, slots)[p]
    ensures TextsStop(s, slice.offset, slice.size, slots) <==> Same(r, rr, slice.offset, slice.size)
  {
    hide CanonicalImage, WellLaidOut, TextsStop;
    var (o, n) := (slice.offset, slice.size);
    var image := CanonicalImage(s, o, n, slots);
    var again := CanonicalImage(image, o, n, slots);
    assert forall p :: o <= p < o + n ==> InSlice(slice, p);
    CanonicalInside(r, image, o, n, slots);
    CanonicalOutside(image, o, n, slots);
    CanonicalImageTwiceIff(s, o, n, slots);
    if Same(r, rr, o, n) {
      assert again == image;
    }
  }

  lemma {:induction false} CanonicalOutside(s: seq<byte>, base: nat, size: nat, slots: map<int, int>)
    requires base + size <= |s|
    ensures SameElsewhere(s, CanonicalImage(s, base, size, slots), base, size)
  {
    var s1 := Apply(Uuids, s, base, size);
    var s2 := Apply(Sections(Stubs), s1, base, size);
    ApplyInside(Uuids, s, s, base, size);
    ApplyInside(Sections(Stubs), s1, s1, base, size);
    ApplyInside(Sections(GotLoads(slots)), s2, s2, base, size);
  }

  /** So with a settled map, canonicalising a universal file again changes nothing. */
  lemma {:induction false} CanonicalFileIdempotent(s: seq<byte>, slots: map<int, int>)
    requires Packed(s) && AllWellLaidOut(s, slots) && MachOGotMeaning.Settled(slots)
    ensures CanonicalFile(CanonicalFile(s, slots), slots) == CanonicalFile(s, slots)
  {
    hide CanonicalFile, CanonicalImage, Slices, Packed, WellLaidOut, TextsStop, Variant, MachOGotMeaning.Settled;
    forall k | 0 <= k < |Slices(s)| ensures TextsStop(s, Slices(s)[k].offset, Slices(s)[k].size, slots) {
      CanonicalImageIdempotent(s, Slices(s)[k].offset, Slices(s)[k].size, slots);
      CanonicalImageTwiceIff(s, Slices(s)[k].offset, Slices(s)[k].size, slots);
    }
    CanonicalFileTwiceIff(s, slots);
  }

  // ---------------------------------------------------------------- other builds

  /** `s` with one image taken from `t`. */
  function Patched(s: seq<byte>, t: seq<byte>, slice: Slice): (r: seq<byte>)
    requires |s| == |t|
    ensures |r| == |s|
  {
    seq(|s|, p requires 0 <= p < |s| => if InSlice(slice, p) then t[p] else s[p])
  }

  /** `t` is another build of the universal file: each image is a variant, and the rest is the same. */
  ghost predicate FileVariant(s: seq<byte>, t: seq<byte>, slots: map<int, int>) {
    && |s| == |t|
    && (forall k :: 0 <= k < |Slices(s)| ==>
          Variant(s, Patched(s, t, Slices(s)[k]), Slices(s)[k].offset, Slices(s)[k].size, slots))
    && forall p :: 0 <= p < |s| && (forall k :: 0 <= k < |Slices(s)| ==> !InSlice(Slices(s)[k], p)) ==> s[p] == t[p]
  }

  /** Every other build of a universal file has the same canonical form. */
  lemma {:induction false} FileVariantsAlike(s: seq<byte>, t: seq<byte>, slots: map<int, int>)
    requires Packed(s) && AllWellLaidOut(s, slots) && FileVariant(s, t, slots)
    ensures CanonicalFile(s, slots) == CanonicalFile(t, slots)
  {
    hide CanonicalFile, CanonicalImage, WellLaidOut, Variant, Patched;
    var slices := Slices(s);
    SameHeaderSameSlices(s, t);
    hide Slices, TableTop;
    CanonicalPerSlice(s, slots);
    CanonicalPerSlice(t, slots);
    forall p | 0 <= p < |s| ensures CanonicalFile(s, slots)[p] == CanonicalFile(t, slots)[p] {
      if k :| 0 <= k < |slices| && InSlice(slices[k], p) {
        SliceVariant(s, t, slices[k], slots);
      }
    }
  }

  lemma {:induction false} SliceVariant(s: seq<byte>, t: seq<byte>, slice: Slice, slots: map<int, int>)
    requires |s| == |t| && Fits(|s|, slice) && WellLaidOut(s, slice.offset, slice.size, slots)
    requires Variant(s, Patched(s, t, slice), slice.offset, slice.size, slots)
    ensures Same(CanonicalImage(s, slice.offset, slice.size, slots), CanonicalImage(t, slice.offset, slice.size, slots),
                 slice.offset, slice.size)
  {
    hide CanonicalImage, WellLaidOut, Variant;
    VariantsCanonicalizeAlike(s, Patched(s, t, slice), slice.offset, slice.size, slots);
    CanonicalInside(Patched(s, t, slice), t, slice.offset, slice.size, slots);
  }

  // ---------------------------------------------------------------- files with one image

  /** Bytes stay or become zero. */
  ghost predicate OnlyZeroed(s: seq<byte>, t: seq<byte>) {
    |s| == |t| && forall p :: 0 <= p < |s| ==> t[p] == s[p] || t[p] == 0
  }

  lemma {:induction false} SectionPassZeroes(s: seq<byte>, base: nat, size: nat, big: bool, wide: bool, at: nat, n: nat, end: nat)
    requires base + size <= |s| && end <= |s|
    ensures OnlyZeroed(s, SectionPass(Stubs, s, base, size, big, wide, at, n, end))
    decreases n
  {
    hide SectionAt;
    if n > 0 && at + SectionSize(wide) <= end {
      var s' := Act(Stubs, s, base, size, SectionAt(s, big, wide, at));
      SectionPassZeroes(s', base, size, big, wide, at + SectionSize(wide), n - 1, end);
    }
  }

  lemma {:induction false} CommandPassZeroes(s: seq<byte>, base: nat, size: nat, big: bool, at: nat, n: nat)
    requires base + size <= |s|
    ensures OnlyZeroed(s, CommandPass(Stubs, s, base, size, big, at, n))
    decreases n
  {
    hide U32At, SectionPass;
    if n > 0 && at + 8 <= base + size {
      var c := Command(at, U32At(s, at, big), U32At(s, at + 4, big));
      if c.size >= 8 && at + c.size <= base + size {
        var wide := c.cmd == LC_SEGMENT_64;
        if Visits(Stubs, c.cmd) && c.size >= SegmentHeaderSize(wide) {
          SectionPassZeroes(s, base, size, big, wide, at + SegmentHeaderSize(wide), NsectsAt(s, big, c), at + c.size);
        }
        CommandPassZeroes(OneCommand(Stubs, s, base, size, big, c), base, size, big, at + c.size, n - 1);
      }
    }
  }

  lemma {:induction false} ZeroingMakesNoContainer(s: seq<byte>, t: seq<byte>)
    requires ContainerOf(s).None? && OnlyZeroed(s, t)
    ensures ContainerOf(t).None?
  {
    hide U32At;
    if |s| >= 8 && t[0] != 0 && t[1] != 0 && t[2] != 0 && t[3] != 0 {
      assert t[..4] == s[..4];
    }
  }

  /** A file that is not universal is canonicalised as one image. */
  lemma {:induction false} OneImage(s: seq<byte>, slots: map<int, int>)
    requires ContainerOf(s).None?
    ensures CanonicalFile(s, slots) == CanonicalImage(s, 0, |s|, slots)
  {
    hide ContainerOf, ImagePass, Commands;
    var s1 := ZeroUuids(s, 0, |s|);
    var s2 := ImagePass(Stubs, s1, 0, |s|);
    ZeroingMakesNoContainer(s, s1);
    StubPassZeroes(s1);
    ZeroingMakesNoContainer(s1, s2);
  }

  lemma {:induction false} StubPassZeroes(s: seq<byte>)
    ensures OnlyZeroed(s, ImagePass(Stubs, s, 0, |s|))
  {
    var table := TableOf(s, 0, |s|);
    CommandPassZeroes(s, 0, |s|, table.big, table.at, table.n);
  }

  // ---------------------------------------------------------------- in place

  method RunWork(work: Work, data: array<byte>, base: nat, size: nat)
    requires base + size <= data.Length
    modifies data
    ensures data[..] == Apply(work, old(data[..]), base, size)
  {
    match work
    case Uuids => ZeroThinUuids(data, base, size);
    case Sections(pass) => MachOInPlace.RunPass(pass, data, base, size);
  }

  /** One pass over the file, in place. */
  method RunFilePass(work: Work, data: array<byte>)
    modifies data
    ensures data[..] == FilePass(work, old(data[..]))
  {
    hide Apply, SliceAt;
    ghost var was := data[..];
    var container := ContainerOf(data[..]);
    if container.None? {
      RunWork(work, data, 0, data.Length);
      return;
    }
    var c := container.value;
    hide ContainerOf;
    var entry: nat := 8;
    for i := 0 to c.n
      invariant FilePass(work, was) == FatLoop(work, data[..], c.big, c.wide, entry, c.n - i)
    {
      if entry + ArchSize(c.wide) > data.Length {
        return;
      }
      var slice := SliceAt(data[..], c.big, c.wide, entry);
      if Fits(data.Length, slice) {
        RunWork(work, data, slice.offset, slice.size);
      }
      entry := entry + ArchSize(c.wide);
    }
  }

  method CanonicalizeFile(data: array<byte>, slots: map<int, int>)
    modifies data
    ensures data[..] == CanonicalFile(old(data[..]), slots)
  {
    RunFilePass(Uuids, data);
    RunFilePass(Sections(Stubs), data);
    RunFilePass(Sections(GotLoads(slots)), data);
  }
}
