/** The canonical form of a thin image: UUIDs and stubs zeroed, GOT loads re-pointed. */
module MachOCanonical {
  import opened Bytes
  import opened MachOImage
  import opened MachOSections
  import MachOGot
  import MachOGotForm

  // ---------------------------------------------------------------- what no pass changes

  lemma {:induction false} ThinTable(s: seq<byte>, base: nat, size: nat)
    requires base + size <= |s|
    ensures TableOf(s, base, size).n > 0 ==> TableEnd(s, base, size) >= base + 28
    ensures TableOf(s, base, size).n == 0 ==> Commands(s, base, size) == []
    ensures forall pass :: TableOf(s, base, size).n == 0 ==> ImageSections(pass, s, base, size) == []
  {
  }

  /** Images that agree on the command table, UUIDs aside, have the same commands and sections. */
  lemma {:induction false} ImageSectionsFrame(pass: Pass, s: seq<byte>, t: seq<byte>, base: nat, size: nat)
    requires base + size <= |s| == |t|
    requires forall p :: base <= p < base + 28 && p < |s| ==> s[p] == t[p]
    requires AgreeButUuids(s, t, Commands(s, base, size), base, TableEnd(s, base, size))
    ensures TableOf(t, base, size) == TableOf(s, base, size)
    ensures Commands(t, base, size) == Commands(s, base, size)
    ensures TableEnd(t, base, size) == TableEnd(s, base, size)
    ensures ImageSections(pass, t, base, size) == ImageSections(pass, s, base, size)
  {
    hide AgreeButUuids, Walk, WalkEnd, AllSections, U32At;
    assert size >= 4 ==> t[base..base + 4] == s[base..base + 4];
    var shape := ShapeOf(s, base, size);
    assert ShapeOf(t, base, size) == shape;
    if shape.Thin? && size >= HeaderSize(shape.wide) {
      SameU32(s, t, base + 16, shape.big);
    }
    var table := TableOf(s, base, size);
    AgreeFrom(s, t, Commands(s, base, size), base, table.at, TableEnd(s, base, size));
    WalkButUuids(s, t, table.big, table.at, table.n, base + size, TableEnd(s, base, size));
    AllSectionsFrame(pass, s, t, table.big, table.at, table.n, base + size, TableEnd(s, base, size));
  }

  lemma {:induction false} AgreeFrom(s: seq<byte>, t: seq<byte>, cs: seq<Command>, at: nat, at': nat, floor: nat)
    requires at <= at' && AgreeButUuids(s, t, cs, at, floor)
    ensures AgreeButUuids(s, t, cs, at', floor)
  {
  }

  /** A pass whose sections are clear of the table leaves commands and sections as they were. */
  lemma {:induction false} PassKeepsSections(pass: Pass, other: Pass, s: seq<byte>, base: nat, size: nat)
    requires base + size <= |s| && Clear(pass, s, base, size)
    ensures var t := ImagePass(pass, s, base, size);
            && Commands(t, base, size) == Commands(s, base, size)
            && TableEnd(t, base, size) == TableEnd(s, base, size)
            && ImageSections(other, t, base, size) == ImageSections(other, s, base, size)
  {
    hide Commands, TableEnd, TableOf, ImageSections, Clear, InUuid;
    ThinTable(s, base, size);
    ImagePassIsFold(pass, s, base, size);
    if ImageSections(pass, s, base, size) == [] {
      EmptyFold(pass, s, base, size);
    }
    ImageSectionsFrame(other, s, ImagePass(pass, s, base, size), base, size);
  }

  lemma {:induction false} UuidsKeepSections(pass: Pass, s: seq<byte>, base: nat, size: nat)
    requires base + size <= |s|
    ensures var t := ZeroUuids(s, base, size);
            && Commands(t, base, size) == Commands(s, base, size)
            && TableEnd(t, base, size) == TableEnd(s, base, size)
            && ImageSections(pass, t, base, size) == ImageSections(pass, s, base, size)
  {
    hide TableEnd, ImageSections;
    var cs := Commands(s, base, size);
    var table := TableOf(s, base, size);
    forall p | base <= p < base + 28 && p < |s| ensures ZeroUuids(s, base, size)[p] == s[p] {
      if InUuid(cs, p) {
        var k :| 0 <= k < |cs| && cs[k].cmd == LC_UUID && cs[k].size >= 24 && cs[k].at + 8 <= p < cs[k].at + 24;
        WalkLaysOut(s, table.big, table.at, table.n, base + size, k);
        assert false;
      }
    }
    ImageSectionsFrame(pass, s, ZeroUuids(s, base, size), base, size);
  }

  // ---------------------------------------------------------------- folding over disjoint sections

  predicate Touched(pass: Pass, base: nat, size: nat, secs: seq<Section>, p: int) {
    exists k :: 0 <= k < |secs| && Touches(pass, base, size, secs[k], p)
  }

  /** No byte belongs to two sections of the pass. */
  ghost predicate DisjointSections(pass: Pass, base: nat, size: nat, secs: seq<Section>) {
    forall i, j, p :: 0 <= i < j < |secs| ==> !(Touches(pass, base, size, secs[i], p) && Touches(pass, base, size, secs[j], p))
  }

  lemma {:induction false} FoldUntouched(pass: Pass, s: seq<byte>, base: nat, size: nat, secs: seq<Section>, p: nat)
    requires base + size <= |s| && p < |s| && !Touched(pass, base, size, secs, p)
    ensures Fold(pass, s, base, size, secs)[p] == s[p]
    decreases |secs|
  {
    hide Act, Touches;
    if secs != [] {
      ActTouches(pass, s, base, size, secs[0], p);
      assert forall k :: 0 <= k < |secs[1..]| ==> secs[1..][k] == secs[k + 1];
      FoldUntouched(pass, Act(pass, s, base, size, secs[0]), base, size, secs[1..], p);
    }
  }

  lemma {:induction false} StubsFold(s: seq<byte>, base: nat, size: nat, secs: seq<Section>, p: nat)
    requires base + size <= |s| && p < |s|
    ensures Fold(Stubs, s, base, size, secs)[p] == if Touched(Stubs, base, size, secs, p) then 0 else s[p]
    decreases |secs|
  {
    hide Touches;
    if secs != [] {
      StubsFold(Act(Stubs, s, base, size, secs[0]), base, size, secs[1..], p);
      ZeroedWhereTouched(s, base, size, secs[0], p);
      assert forall k :: 0 <= k < |secs[1..]| ==> secs[1..][k] == secs[k + 1];
      hide Act;
      if Touched(Stubs, base, size, secs, p) && !Touches(Stubs, base, size, secs[0], p) {
        var k :| 0 <= k < |secs| && Touches(Stubs, base, size, secs[k], p);
        assert secs[1..][k - 1] == secs[k];
      }
    }
  }

  lemma {:induction false} ZeroedWhereTouched(s: seq<byte>, base: nat, size: nat, sec: Section, p: nat)
    requires base + size <= |s| && p < |s|
    ensures Act(Stubs, s, base, size, sec)[p] == if Touches(Stubs, base, size, sec, p) then 0 else s[p]
  {
  }

  /** What a pass writes into a section depends on that section's bytes only. */
  lemma {:induction false} ActLocal(pass: Pass, s: seq<byte>, t: seq<byte>, base: nat, size: nat, sec: Section, p: nat)
    requires base + size <= |s| == |t| && Touches(pass, base, size, sec, p)
    requires forall q :: 0 <= q < |s| && Touches(pass, base, size, sec, q) ==> s[q] == t[q]
    ensures Act(pass, s, base, size, sec)[p] == Act(pass, t, base, size, sec)[p]
  {
    hide MachOGot.Rewrite;
    if pass.GotLoads? {
      var at := base + sec.offset;
      forall q | at <= q < at + sec.size ensures s[q] == t[q] {
        assert Touches(pass, base, size, sec, q);
      }
      assert MachOGot.Words(s, at, sec.size / 4) == MachOGot.Words(t, at, sec.size / 4);
    }
  }

  lemma {:induction false} FoldDisjoint(pass: Pass, s: seq<byte>, base: nat, size: nat, secs: seq<Section>, k: nat, p: nat)
    requires base + size <= |s| && DisjointSections(pass, base, size, secs)
    requires k < |secs| && Touches(pass, base, size, secs[k], p)
    ensures Fold(pass, s, base, size, secs)[p] == Act(pass, s, base, size, secs[k])[p]
    decreases |secs|
  {
    hide Act, Touches;
    TouchesInside(pass, base, size, secs[k], p);
    var s' := Act(pass, s, base, size, secs[0]);
    var rest := secs[1..];
    assert forall j :: 0 <= j < |rest| ==> rest[j] == secs[j + 1];
    if k == 0 {
      FoldUntouched(pass, s', base, size, rest, p);
    } else {
      assert DisjointSections(pass, base, size, rest);
      assert rest[k - 1] == secs[k];
      FoldDisjoint(pass, s', base, size, rest, k - 1, p);
      forall q | 0 <= q < |s| && Touches(pass, base, size, secs[k], q) ensures s'[q] == s[q] {
        ActTouches(pass, s, base, size, secs[0], q);
      }
      ActLocal(pass, s', s, base, size, secs[k], p);
    }
  }

  lemma {:induction false} TouchesInside(pass: Pass, base: nat, size: nat, sec: Section, p: int)
    requires Touches(pass, base, size, sec, p)
    ensures base <= p < base + size
  {
  }

  // ---------------------------------------------------------------- stubs

  /** Zeroing stubs that lie beyond the command table zeroes exactly their bytes, keeps the
      walk, and does nothing the second time. */
  lemma {:induction false} StubPassZeroesStubs(s: seq<byte>, base: nat, size: nat)
    requires base + size <= |s| && Clear(Stubs, s, base, size)
    ensures var t := ImagePass(Stubs, s, base, size);
            && (forall p :: 0 <= p < |s| ==>
                  t[p] == if Touched(Stubs, base, size, ImageSections(Stubs, s, base, size), p) then 0 else s[p])
            && Commands(t, base, size) == Commands(s, base, size)
            && ImagePass(Stubs, t, base, size) == t
  {
    hide ImagePass, Commands, ImageSections, Clear, Touched, TableEnd, Fold;
    var t := ImagePass(Stubs, s, base, size);
    var secs := ImageSections(Stubs, s, base, size);
    ImagePassIsFold(Stubs, s, base, size);
    PassKeepsSections(Stubs, Stubs, s, base, size);
    StillClear(Stubs, s, t, base, size);
    ImagePassIsFold(Stubs, t, base, size);
    forall p | 0 <= p < |s|
      ensures t[p] == if Touched(Stubs, base, size, secs, p) then 0 else s[p]
      ensures ImagePass(Stubs, t, base, size)[p] == t[p]
    {
      StubsFold(s, base, size, secs, p);
      StubsFold(t, base, size, secs, p);
    }
  }

  lemma {:induction false} StillClear(pass: Pass, s: seq<byte>, t: seq<byte>, base: nat, size: nat)
    requires base + size <= |s| == |t| && Clear(pass, s, base, size)
    requires ImageSections(pass, t, base, size) == ImageSections(pass, s, base, size)
    requires TableEnd(t, base, size) == TableEnd(s, base, size)
    ensures Clear(pass, t, base, size)
  {
    hide ImageSections, TableEnd;
  }

  // ---------------------------------------------------------------- the canonical form

  function CanonicalImage(s: seq<byte>, base: nat, size: nat, slots: map<int, int>): (r: seq<byte>)
    requires base + size <= |s|
    ensures |r| == |s|
  {
    ImagePass(GotLoads(slots), ImagePass(Stubs, ZeroUuids(s, base, size), base, size), base, size)
  }

  /** The layout a linker produces: code lies beyond the command table, the text sections are
      disjoint, and no stub lies in one. */
  ghost predicate WellLaidOut(s: seq<byte>, base: nat, size: nat, slots: map<int, int>)
    requires base + size <= |s|
  {
    var (stubs, texts) := (ImageSections(Stubs, s, base, size), ImageSections(GotLoads(slots), s, base, size));
    && Clear(Stubs, s, base, size) && Clear(GotLoads(slots), s, base, size)
    && DisjointSections(GotLoads(slots), base, size, texts)
    && forall p :: !(Touched(Stubs, base, size, stubs, p) && Touched(GotLoads(slots), base, size, texts, p))
  }

  ghost predicate SameText(s: seq<byte>, t: seq<byte>, at: nat, size: nat, address: nat, slots: map<int, int>) {
    && at + size <= |s| == |t|
    && MachOGotForm.SameLoads(MachOGot.Words(s, at, size / 4), MachOGot.Words(t, at, size / 4), address, slots)
    && forall p :: at + size / 4 * 4 <= p < at + size ==> s[p] == t[p]
  }

  /** `t` is `s` outside UUIDs, stubs and texts. */
  ghost predicate SameButVolatile(s: seq<byte>, t: seq<byte>, base: nat, size: nat, slots: map<int, int>)
    requires base + size <= |s|
  {
    var (stubs, texts) := (ImageSections(Stubs, s, base, size), ImageSections(GotLoads(slots), s, base, size));
    && |s| == |t|
    && forall p :: 0 <= p < |s| ==>
         || s[p] == t[p] || InUuid(Commands(s, base, size), p)
         || Touched(Stubs, base, size, stubs, p) || Touched(GotLoads(slots), base, size, texts, p)
  }

  /** `t` is another build of `s`: it differs in UUIDs, in stubs, and in loads that end up with the same slot. */
  ghost predicate Variant(s: seq<byte>, t: seq<byte>, base: nat, size: nat, slots: map<int, int>)
    requires base + size <= |s|
  {
    var texts := ImageSections(GotLoads(slots), s, base, size);
    && SameButVolatile(s, t, base, size, slots)
    && (forall k :: 0 <= k < |texts| && Applies(GotLoads(slots), base, size, texts[k]) ==>
          SameText(s, t, base + texts[k].offset, texts[k].size, texts[k].address, slots))
  }

  /** Where a text section is rewritten, the byte at `p` is the rewritten one. */
  ghost predicate TextByte(s: seq<byte>, r: seq<byte>, base: nat, size: nat, slots: map<int, int>, sec: Section, p: nat)
    requires base + size <= |s| == |r| && p < |s|
  {
    Touches(GotLoads(slots), base, size, sec, p) ==> r[p] == Act(GotLoads(slots), s, base, size, sec)[p]
  }

  ghost predicate TextsByte(s: seq<byte>, r: seq<byte>, base: nat, size: nat, slots: map<int, int>, texts: seq<Section>, p: nat)
    requires base + size <= |s| == |r| && p < |s|
  {
    forall k :: 0 <= k < |texts| ==> TextByte(s, r, base, size, slots, texts[k], p)
  }

  /** The byte at `p` of the canonical form, when the image is well laid out. */
  ghost predicate CanonicalByte(s: seq<byte>, r: seq<byte>, base: nat, size: nat, slots: map<int, int>, p: nat)
    requires base + size <= |s| == |r| && p < |s|
  {
    var (stubs, texts) := (ImageSections(Stubs, s, base, size), ImageSections(GotLoads(slots), s, base, size));
    && (InUuid(Commands(s, base, size), p) || Touched(Stubs, base, size, stubs, p) ==> r[p] == 0)
    && TextsByte(s, r, base, size, slots, texts, p)
    && (InUuid(Commands(s, base, size), p) || Touched(Stubs, base, size, stubs, p)
        || Touched(GotLoads(slots), base, size, texts, p) || r[p] == s[p])
  }

  lemma {:induction false} UuidsInTable(s: seq<byte>, base: nat, size: nat, p: int)
    requires base + size <= |s| && InUuid(Commands(s, base, size), p)
    ensures p < TableEnd(s, base, size)
  {
    var (cs, t) := (Commands(s, base, size), TableOf(s, base, size));
    var k :| 0 <= k < |cs| && cs[k].cmd == LC_UUID && cs[k].size >= 24 && cs[k].at + 8 <= p < cs[k].at + 24;
    WalkLaysOut(s, t.big, t.at, t.n, base + size, k);
  }

  /** The image before its GOT loads are rewritten. */
  function BeforeLoads(s: seq<byte>, base: nat, size: nat): (r: seq<byte>)
    requires base + size <= |s|
    ensures |r| == |s|
  {
    ImagePass(Stubs, ZeroUuids(s, base, size), base, size)
  }

  lemma {:induction false} BeforeLoadsBytes(s: seq<byte>, base: nat, size: nat, pass: Pass)
    requires base + size <= |s| && Clear(Stubs, s, base, size)
    ensures forall p :: 0 <= p < |s| ==>
              BeforeLoads(s, base, size)[p] ==
              if InUuid(Commands(s, base, size), p) || Touched(Stubs, base, size, ImageSections(Stubs, s, base, size), p)
              then 0 else s[p]
    ensures Commands(BeforeLoads(s, base, size), base, size) == Commands(s, base, size)
    ensures TableEnd(BeforeLoads(s, base, size), base, size) == TableEnd(s, base, size)
    ensures ImageSections(pass, BeforeLoads(s, base, size), base, size) == ImageSections(pass, s, base, size)
  {
    hide ImagePass, Commands, ImageSections, Clear, Touched, TableEnd, InUuid;
    var u := ZeroUuids(s, base, size);
    UuidsKeepSections(pass, s, base, size);
    UuidsKeepSections(Stubs, s, base, size);
    StillClear(Stubs, s, u, base, size);
    StubPassZeroesStubs(u, base, size);
    PassKeepsSections(Stubs, pass, u, base, size);
  }

  lemma {:induction false} CanonicalBytes(s: seq<byte>, base: nat, size: nat, slots: map<int, int>, p: nat)
    requires base + size <= |s| && WellLaidOut(s, base, size, slots) && p < |s|
    ensures CanonicalByte(s, CanonicalImage(s, base, size, slots), base, size, slots, p)
  {
    hide ImagePass, Commands, ImageSections, Clear, TableEnd, InUuid, BeforeLoads, Touches, Fold, Act, DisjointSections;
    var pass := GotLoads(slots);
    var v := BeforeLoads(s, base, size);
    var texts := ImageSections(pass, s, base, size);
    CanonicalIsAfterLoads(s, base, size, slots);
    BeforeLoadsBytes(s, base, size, pass);
    StillClear(pass, s, v, base, size);
    ImagePassIsFold(pass, v, base, size);
    forall k | 0 <= k < |texts| && Touches(pass, base, size, texts[k], p)
      ensures Fold(pass, v, base, size, texts)[p] == Act(pass, s, base, size, texts[k])[p]
    {
      FoldDisjoint(pass, v, base, size, texts, k, p);
      TextBytesUntouched(s, base, size, slots, k);
      ActLocal(pass, v, s, base, size, texts[k], p);
    }
    if !Touched(pass, base, size, texts, p) {
      FoldUntouched(pass, v, base, size, texts, p);
    } else if InUuid(Commands(s, base, size), p) {
      UuidsInTable(s, base, size, p);
      TouchedAbove(pass, s, base, size, p);
    }
  }

  lemma {:induction false} CanonicalIsAfterLoads(s: seq<byte>, base: nat, size: nat, slots: map<int, int>)
    requires base + size <= |s|
    ensures CanonicalImage(s, base, size, slots) == ImagePass(GotLoads(slots), BeforeLoads(s, base, size), base, size)
  {
  }

  lemma {:induction false} TouchedAbove(pass: Pass, s: seq<byte>, base: nat, size: nat, p: nat)
    requires base + size <= |s| && Clear(pass, s, base, size)
    requires Touched(pass, base, size, ImageSections(pass, s, base, size), p)
    ensures p >= TableEnd(s, base, size)
  {
    hide ImageSections, TableEnd, Touches;
  }

  /** Neither zeroing reaches into a text section. */
  lemma {:induction false} TextBytesUntouched(s: seq<byte>, base: nat, size: nat, slots: map<int, int>, k: nat)
    requires base + size <= |s| && WellLaidOut(s, base, size, slots)
    requires k < |ImageSections(GotLoads(slots), s, base, size)|
    ensures forall q :: 0 <= q < |s| && Touches(GotLoads(slots), base, size, ImageSections(GotLoads(slots), s, base, size)[k], q) ==>
              BeforeLoads(s, base, size)[q] == s[q]
  {
    hide ImageSections, TableEnd, Touches, Commands, BeforeLoads, InUuid, Clear, DisjointSections;
    var pass := GotLoads(slots);
    var texts := ImageSections(pass, s, base, size);
    BeforeLoadsBytes(s, base, size, pass);
    forall q | 0 <= q < |s| && Touches(pass, base, size, texts[k], q) ensures BeforeLoads(s, base, size)[q] == s[q] {
      assert Touched(pass, base, size, texts, q);
      TouchedAbove(pass, s, base, size, q);
      if InUuid(Commands(s, base, size), q) {
        UuidsInTable(s, base, size, q);
        assert false;
      }
    }
  }

  // ---------------------------------------------------------------- one form for all variants

  lemma {:induction false} VariantKeepsSections(s: seq<byte>, t: seq<byte>, base: nat, size: nat, slots: map<int, int>, pass: Pass)
    requires base + size <= |s| && WellLaidOut(s, base, size, slots) && SameButVolatile(s, t, base, size, slots)
    ensures Commands(t, base, size) == Commands(s, base, size)
    ensures TableEnd(t, base, size) == TableEnd(s, base, size)
    ensures ImageSections(pass, t, base, size) == ImageSections(pass, s, base, size)
  {
    hide ImageSections, TableEnd, Commands, InUuid, Clear, DisjointSections, SameText, Touches, TableOf;
    ThinTable(s, base, size);
    forall p | 0 <= p < |s| && (p < TableEnd(s, base, size) || TableOf(s, base, size).n == 0) && !InUuid(Commands(s, base, size), p)
      ensures s[p] == t[p]
    {
      NotTouchedBelow(Stubs, s, base, size, p);
      NotTouchedBelow(GotLoads(slots), s, base, size, p);
    }
    forall p | base <= p < base + 28 && p < |s| ensures s[p] == t[p] {
      if InUuid(Commands(s, base, size), p) {
        NoUuidInHeader(s, base, size, p);
      }
    }
    ImageSectionsFrame(pass, s, t, base, size);
  }

  lemma {:induction false} NotTouchedBelow(pass: Pass, s: seq<byte>, base: nat, size: nat, p: nat)
    requires base + size <= |s| && Clear(pass, s, base, size)
    requires p < TableEnd(s, base, size) || TableOf(s, base, size).n == 0
    ensures !Touched(pass, base, size, ImageSections(pass, s, base, size), p)
  {
    hide TableEnd, ImageSections, Clear, TableOf;
    ThinTable(s, base, size);
    if Touched(pass, base, size, ImageSections(pass, s, base, size), p) {
      TouchedAbove(pass, s, base, size, p);
    }
  }

  lemma {:induction false} NoUuidInHeader(s: seq<byte>, base: nat, size: nat, p: int)
    requires base + size <= |s| && InUuid(Commands(s, base, size), p)
    ensures p >= base + 28
  {
    var (cs, t) := (Commands(s, base, size), TableOf(s, base, size));
    var k :| 0 <= k < |cs| && cs[k].cmd == LC_UUID && cs[k].size >= 24 && cs[k].at + 8 <= p < cs[k].at + 24;
    WalkLaysOut(s, t.big, t.at, t.n, base + size, k);
  }

  lemma {:induction false} SameTextSameAct(s: seq<byte>, t: seq<byte>, base: nat, size: nat, sec: Section, slots: map<int, int>, p: nat)
    requires base + size <= |s| == |t| && Touches(GotLoads(slots), base, size, sec, p)
    requires SameText(s, t, base + sec.offset, sec.size, sec.address, slots)
    ensures Act(GotLoads(slots), s, base, size, sec)[p] == Act(GotLoads(slots), t, base, size, sec)[p]
  {
    hide MachOGot.Rewrite, MachOGot.Words, MachOGotForm.SameLoads;
    var (at, n) := (base + sec.offset, sec.size / 4);
    MachOGotForm.RewriteDecides(MachOGot.Words(s, at, n), MachOGot.Words(t, at, n), sec.address, slots);
  }

  /** Every variant of a well-laid-out image has the same canonical form. */
  lemma {:induction false} VariantsCanonicalizeAlike(s: seq<byte>, t: seq<byte>, base: nat, size: nat, slots: map<int, int>)
    requires base + size <= |s| && WellLaidOut(s, base, size, slots) && Variant(s, t, base, size, slots)
    ensures CanonicalImage(s, base, size, slots) == CanonicalImage(t, base, size, slots)
  {
    hide ImageSections, TableEnd, Commands, InUuid, Touches, Act, CanonicalImage, SameText, DisjointSections, Clear;
    var pass := GotLoads(slots);
    VariantKeepsSections(s, t, base, size, slots, Stubs);
    VariantKeepsSections(s, t, base, size, slots, pass);
    StillClear(Stubs, s, t, base, size);
    StillClear(pass, s, t, base, size);
    assert WellLaidOut(t, base, size, slots);
    var (rs, rt) := (CanonicalImage(s, base, size, slots), CanonicalImage(t, base, size, slots));
    var texts := ImageSections(pass, s, base, size);
    forall p | 0 <= p < |s| ensures rs[p] == rt[p] {
      CanonicalBytes(s, base, size, slots, p);
      CanonicalBytes(t, base, size, slots, p);
      if Touched(pass, base, size, texts, p) {
        var k :| 0 <= k < |texts| && Touches(pass, base, size, texts[k], p);
        TouchesApplies(pass, base, size, texts[k], p);
        SameTextSameAct(s, t, base, size, texts[k], slots, p);
      }
    }
  }

  lemma {:induction false} TouchesApplies(pass: Pass, base: nat, size: nat, sec: Section, p: int)
    requires Touches(pass, base, size, sec, p)
    ensures Applies(pass, base, size, sec)
  {
  }

  lemma {:induction false} CanonicalTextsByte(s: seq<byte>, r: seq<byte>, base: nat, size: nat, slots: map<int, int>, p: nat)
    requires base + size <= |s| == |r| && p < |s| && CanonicalByte(s, r, base, size, slots, p)
    ensures TextsByte(s, r, base, size, slots, ImageSections(GotLoads(slots), s, base, size), p)
  {
    hide ImageSections, TextsByte, Commands, InUuid, Touched;
  }

  lemma {:induction false} CanonicalTextByte(s: seq<byte>, r: seq<byte>, base: nat, size: nat, slots: map<int, int>, k: nat, p: nat)
    requires base + size <= |s| == |r| && p < |s| && CanonicalByte(s, r, base, size, slots, p)
    requires k < |ImageSections(GotLoads(slots), s, base, size)|
    requires Touches(GotLoads(slots), base, size, ImageSections(GotLoads(slots), s, base, size)[k], p)
    ensures r[p] == Act(GotLoads(slots), s, base, size, ImageSections(GotLoads(slots), s, base, size)[k])[p]
  {
    hide ImageSections, CanonicalByte, Act, Touches;
    CanonicalTextsByte(s, r, base, size, slots, p);
    assert TextByte(s, r, base, size, slots, ImageSections(GotLoads(slots), s, base, size)[k], p);
  }
}
