/** The canonical bytes of one image as a form: when two images share it, and when canonicalising again changes it. */
module MachOForm {
  import opened Bytes
  import opened MachOImage
  import opened MachOSections
  import opened MachOCanonical
  import MachOGot
  import MachOGotForm
  import MachOGotMeaning

  // ---------------------------------------------------------------- the canonical form keeps the layout

  lemma {:induction false} CanonicalKeepsRest(s: seq<byte>, base: nat, size: nat, slots: map<int, int>)
    requires base + size <= |s| && WellLaidOut(s, base, size, slots)
    ensures SameButVolatile(s, CanonicalImage(s, base, size, slots), base, size, slots)
  {
    hide ImageSections, Commands, InUuid, Touched, Touches, Act, CanonicalImage, WellLaidOut;
    var r := CanonicalImage(s, base, size, slots);
    forall p | 0 <= p < |s|
      ensures || s[p] == r[p] || InUuid(Commands(s, base, size), p)
              || Touched(Stubs, base, size, ImageSections(Stubs, s, base, size), p)
              || Touched(GotLoads(slots), base, size, ImageSections(GotLoads(slots), s, base, size), p)
    {
      CanonicalBytes(s, base, size, slots, p);
    }
  }

  /** The canonical form has the commands and sections of the image, and its layout. */
  lemma {:induction false} CanonicalKeepsSections(s: seq<byte>, base: nat, size: nat, slots: map<int, int>, pass: Pass)
    requires base + size <= |s| && WellLaidOut(s, base, size, slots)
    ensures var r := CanonicalImage(s, base, size, slots);
            Commands(r, base, size) == Commands(s, base, size) && ImageSections(pass, r, base, size) == ImageSections(pass, s, base, size)
    ensures WellLaidOut(CanonicalImage(s, base, size, slots), base, size, slots)
  {
    hide ImageSections, Commands, TableEnd, CanonicalImage, SameButVolatile, Clear, DisjointSections, Touched;
    var r := CanonicalImage(s, base, size, slots);
    CanonicalKeepsRest(s, base, size, slots);
    VariantKeepsSections(s, r, base, size, slots, pass);
    VariantKeepsSections(s, r, base, size, slots, Stubs);
    VariantKeepsSections(s, r, base, size, slots, GotLoads(slots));
    StillClear(Stubs, s, r, base, size);
    StillClear(GotLoads(slots), s, r, base, size);
  }

  // ---------------------------------------------------------------- images of one form

  lemma {:induction false} SameActSameText(s: seq<byte>, t: seq<byte>, at: nat, size: nat, address: nat, slots: map<int, int>)
    requires at + size <= |s| == |t|
    requires forall p :: at <= p < at + size ==>
               MachOGot.TextPass(s, at, size, address, slots)[p] == MachOGot.TextPass(t, at, size, address, slots)[p]
    ensures SameText(s, t, at, size, address, slots)
  {
    hide MachOGot.TextPass, MachOGot.Rewrite, MachOGotForm.SameLoads;
    var (x, y) := (MachOGot.TextPass(s, at, size, address, slots), MachOGot.TextPass(t, at, size, address, slots));
    MachOGot.TextPassWords(s, at, size, address, slots);
    MachOGot.TextPassWords(t, at, size, address, slots);
    assert MachOGot.Words(x, at, size / 4) == MachOGot.Words(y, at, size / 4);
    MachOGotForm.RewriteDecides(MachOGot.Words(s, at, size / 4), MachOGot.Words(t, at, size / 4), address, slots);
  }

  lemma {:induction false} SameFormIsVariant(s: seq<byte>, t: seq<byte>, base: nat, size: nat, slots: map<int, int>)
    requires base + size <= |s| == |t| && WellLaidOut(s, base, size, slots) && WellLaidOut(t, base, size, slots)
    requires CanonicalImage(s, base, size, slots) == CanonicalImage(t, base, size, slots)
    ensures Variant(s, t, base, size, slots)
  {
    hide ImageSections, Commands, InUuid, Touches, Act, CanonicalImage, SameText, WellLaidOut;
    var (pass, r) := (GotLoads(slots), CanonicalImage(s, base, size, slots));
    CanonicalKeepsSections(s, base, size, slots, Stubs);
    CanonicalKeepsSections(s, base, size, slots, pass);
    CanonicalKeepsSections(t, base, size, slots, Stubs);
    CanonicalKeepsSections(t, base, size, slots, pass);
    var texts := ImageSections(pass, s, base, size);
    forall p | 0 <= p < |s|
      ensures CanonicalByte(s, r, base, size, slots, p) && CanonicalByte(t, r, base, size, slots, p)
    {
      CanonicalBytes(s, base, size, slots, p);
      CanonicalBytes(t, base, size, slots, p);
    }
    forall k | 0 <= k < |texts| && Applies(pass, base, size, texts[k])
      ensures SameText(s, t, base + texts[k].offset, texts[k].size, texts[k].address, slots)
    {
      TextsAgree(s, t, r, base, size, slots, k);
    }
    forall p | 0 <= p < |s|
      ensures || s[p] == t[p] || InUuid(Commands(s, base, size), p)
              || Touched(Stubs, base, size, ImageSections(Stubs, s, base, size), p) || Touched(pass, base, size, texts, p)
    {
      assert CanonicalByte(s, r, base, size, slots, p) && CanonicalByte(t, r, base, size, slots, p);
    }
  }

  lemma {:induction false} TextsAgree(s: seq<byte>, t: seq<byte>, r: seq<byte>, base: nat, size: nat, slots: map<int, int>, k: nat)
    requires base + size <= |s| == |t| == |r|
    requires ImageSections(GotLoads(slots), s, base, size) == ImageSections(GotLoads(slots), t, base, size)
    requires k < |ImageSections(GotLoads(slots), s, base, size)|
    requires Applies(GotLoads(slots), base, size, ImageSections(GotLoads(slots), s, base, size)[k])
    requires forall p :: 0 <= p < |s| ==> CanonicalByte(s, r, base, size, slots, p) && CanonicalByte(t, r, base, size, slots, p)
    ensures var sec := ImageSections(GotLoads(slots), s, base, size)[k];
            SameText(s, t, base + sec.offset, sec.size, sec.address, slots)
  {
    hide ImageSections, Commands, InUuid, MachOGot.TextPass, SameText, CanonicalByte;
    var pass := GotLoads(slots);
    var sec := ImageSections(pass, s, base, size)[k];
    var at := base + sec.offset;
    forall p | at <= p < at + sec.size
      ensures MachOGot.TextPass(s, at, sec.size, sec.address, slots)[p] == MachOGot.TextPass(t, at, sec.size, sec.address, slots)[p]
    {
      assert Touches(pass, base, size, sec, p);
      CanonicalTextByte(s, r, base, size, slots, k, p);
      CanonicalTextByte(t, r, base, size, slots, k, p);
    }
    SameActSameText(s, t, at, sec.size, sec.address, slots);
  }

  /** For every slot map, canonical bytes hide exactly UUIDs, stub contents and the slots of loads that end up with one slot. */
  lemma {:induction false} CanonicalDecides(s: seq<byte>, t: seq<byte>, base: nat, size: nat, slots: map<int, int>)
    requires base + size <= |s| == |t| && WellLaidOut(s, base, size, slots) && WellLaidOut(t, base, size, slots)
    ensures CanonicalImage(s, base, size, slots) == CanonicalImage(t, base, size, slots) <==> Variant(s, t, base, size, slots)
  {
    hide CanonicalImage, WellLaidOut, Variant;
    if Variant(s, t, base, size, slots) {
      VariantsCanonicalizeAlike(s, t, base, size, slots);
    }
    if CanonicalImage(s, base, size, slots) == CanonicalImage(t, base, size, slots) {
      SameFormIsVariant(s, t, base, size, slots);
    }
  }

  // ---------------------------------------------------------------- canonicalising again

  /** In every text section that is rewritten, every rewritten load stops where it is sent. */
  ghost predicate TextsStop(s: seq<byte>, base: nat, size: nat, slots: map<int, int>)
    requires base + size <= |s|
  {
    var texts := ImageSections(GotLoads(slots), s, base, size);
    forall k :: 0 <= k < |texts| && Applies(GotLoads(slots), base, size, texts[k]) ==>
      MachOGotForm.AllStop(MachOGot.Words(s, base + texts[k].offset, texts[k].size / 4), texts[k].address, slots)
  }

  /** A text is its own rewriting exactly when its words are. */
  lemma {:induction false} TextFixed(r: seq<byte>, at: nat, size: nat, address: nat, slots: map<int, int>)
    requires at + size <= |r|
    ensures (forall p :: at <= p < at + size ==> MachOGot.TextPass(r, at, size, address, slots)[p] == r[p]) <==>
            MachOGot.Rewrite(MachOGot.Words(r, at, size / 4), address, slots) == MachOGot.Words(r, at, size / 4)
  {
    hide MachOGot.TextPass, MachOGot.Rewrite;
    var t := MachOGot.TextPass(r, at, size, address, slots);
    MachOGot.TextPassWords(r, at, size, address, slots);
    MachOGot.TextPassByWords(r, r, at, size, address, slots);
    if forall p :: at <= p < at + size ==> t[p] == r[p] {
      assert MachOGot.Words(t, at, size / 4) == MachOGot.Words(r, at, size / 4);
    }
  }

  /** The words of a text in the canonical form are the rewritten words. */
  lemma {:induction false} CanonicalWords(s: seq<byte>, r: seq<byte>, base: nat, size: nat, slots: map<int, int>, k: nat)
    requires base + size <= |s| == |r| && k < |ImageSections(GotLoads(slots), s, base, size)|
    requires Applies(GotLoads(slots), base, size, ImageSections(GotLoads(slots), s, base, size)[k])
    requires forall p :: 0 <= p < |s| ==> CanonicalByte(s, r, base, size, slots, p)
    ensures var sec := ImageSections(GotLoads(slots), s, base, size)[k];
            var (at, n) := (base + sec.offset, sec.size / 4);
            MachOGot.Words(r, at, n) == MachOGot.Rewrite(MachOGot.Words(s, at, n), sec.address, slots)
  {
    hide ImageSections, MachOGot.TextPass, MachOGot.Rewrite, CanonicalByte;
    var sec := ImageSections(GotLoads(slots), s, base, size)[k];
    var at := base + sec.offset;
    var t := MachOGot.TextPass(s, at, sec.size, sec.address, slots);
    forall p | at <= p < at + sec.size ensures r[p] == t[p] {
      assert Touches(GotLoads(slots), base, size, sec, p);
      CanonicalTextByte(s, r, base, size, slots, k, p);
    }
    MachOGot.TextPassWords(s, at, sec.size, sec.address, slots);
    assert MachOGot.Words(r, at, sec.size / 4) == MachOGot.Words(t, at, sec.size / 4);
  }

  /** One text of the canonical form is fixed exactly when its loads stop. */
  lemma {:induction false} TextStopsIff(s: seq<byte>, r: seq<byte>, base: nat, size: nat, slots: map<int, int>, k: nat)
    requires base + size <= |s| == |r| && k < |ImageSections(GotLoads(slots), s, base, size)|
    requires Applies(GotLoads(slots), base, size, ImageSections(GotLoads(slots), s, base, size)[k])
    requires forall p :: 0 <= p < |s| ==> CanonicalByte(s, r, base, size, slots, p)
    ensures var sec := ImageSections(GotLoads(slots), s, base, size)[k];
            var at := base + sec.offset;
            MachOGotForm.AllStop(MachOGot.Words(s, at, sec.size / 4), sec.address, slots) <==>
            forall p :: at <= p < at + sec.size ==> Act(GotLoads(slots), r, base, size, sec)[p] == r[p]
  {
    hide ImageSections, MachOGot.TextPass, MachOGot.Rewrite, MachOGot.Words, CanonicalByte, MachOGotForm.AllStop;
    var sec := ImageSections(GotLoads(slots), s, base, size)[k];
    var at := base + sec.offset;
    CanonicalWords(s, r, base, size, slots, k);
    TextFixed(r, at, sec.size, sec.address, slots);
    MachOGotForm.RewriteTwiceIff(MachOGot.Words(s, at, sec.size / 4), sec.address, slots);
  }

  /** For every slot map: canonicalising an image again changes nothing exactly when the loads of its texts stop. */
  lemma {:induction false} CanonicalImageTwiceIff(s: seq<byte>, base: nat, size: nat, slots: map<int, int>)
    requires base + size <= |s| && WellLaidOut(s, base, size, slots)
    ensures CanonicalImage(CanonicalImage(s, base, size, slots), base, size, slots) == CanonicalImage(s, base, size, slots)
       <==> TextsStop(s, base, size, slots)
  {
    hide ImageSections, Commands, InUuid, Touches, Act, CanonicalImage, WellLaidOut, MachOGot.Words, MachOGotForm.AllStop;
    var (pass, r) := (GotLoads(slots), CanonicalImage(s, base, size, slots));
    var rr := CanonicalImage(r, base, size, slots);
    var texts := ImageSections(pass, s, base, size);
    CanonicalKeepsSections(s, base, size, slots, Stubs);
    CanonicalKeepsSections(s, base, size, slots, pass);
    forall p | 0 <= p < |s|
      ensures CanonicalByte(s, r, base, size, slots, p) && CanonicalByte(r, rr, base, size, slots, p)
    {
      CanonicalBytes(s, base, size, slots, p);
      CanonicalBytes(r, base, size, slots, p);
    }
    forall k | 0 <= k < |texts| && Applies(pass, base, size, texts[k])
      ensures var at := base + texts[k].offset;
              MachOGotForm.AllStop(MachOGot.Words(s, at, texts[k].size / 4), texts[k].address, slots) <==>
              forall p :: at <= p < at + texts[k].size ==> rr[p] == r[p]
    {
      TextStopsIff(s, r, base, size, slots, k);
      TextBytes(r, rr, base, size, slots, k);
    }
    if TextsStop(s, base, size, slots) {
      forall p | 0 <= p < |s| ensures rr[p] == r[p] {
        assert CanonicalByte(s, r, base, size, slots, p) && CanonicalByte(r, rr, base, size, slots, p);
        if Touched(pass, base, size, texts, p) {
          var k :| 0 <= k < |texts| && Touches(pass, base, size, texts[k], p);
          TouchesWhere(pass, base, size, texts[k], p);
        }
      }
    }
  }

  lemma {:induction false} TouchesWhere(pass: Pass, base: nat, size: nat, sec: Section, p: int)
    requires Touches(pass, base, size, sec, p)
    ensures Applies(pass, base, size, sec) && base + sec.offset <= p < base + sec.offset + sec.size
  {
  }

  lemma {:induction false} TextBytes(r: seq<byte>, rr: seq<byte>, base: nat, size: nat, slots: map<int, int>, k: nat)
    requires base + size <= |r| == |rr| && k < |ImageSections(GotLoads(slots), r, base, size)|
    requires Applies(GotLoads(slots), base, size, ImageSections(GotLoads(slots), r, base, size)[k])
    requires forall p :: 0 <= p < |r| ==> CanonicalByte(r, rr, base, size, slots, p)
    ensures var sec := ImageSections(GotLoads(slots), r, base, size)[k];
            forall p :: base + sec.offset <= p < base + sec.offset + sec.size ==>
              rr[p] == Act(GotLoads(slots), r, base, size, sec)[p]
  {
    hide ImageSections, Act, CanonicalByte;
    var sec := ImageSections(GotLoads(slots), r, base, size)[k];
    forall p | base + sec.offset <= p < base + sec.offset + sec.size
      ensures rr[p] == Act(GotLoads(slots), r, base, size, sec)[p]
    {
      assert Touches(GotLoads(slots), base, size, sec, p);
      CanonicalTextByte(r, rr, base, size, slots, k, p);
    }
  }

  /** With a settled map, as every thin file has, the canonical image is itself a build of the image, and a fixed point. */
  lemma {:induction false} CanonicalImageIdempotent(s: seq<byte>, base: nat, size: nat, slots: map<int, int>)
    requires base + size <= |s| && WellLaidOut(s, base, size, slots) && MachOGotMeaning.Settled(slots)
    ensures Variant(s, CanonicalImage(s, base, size, slots), base, size, slots)
    ensures CanonicalImage(CanonicalImage(s, base, size, slots), base, size, slots) == CanonicalImage(s, base, size, slots)
  {
    hide CanonicalImage, WellLaidOut, Variant, ImageSections, MachOGot.Words, MachOGotForm.AllStop, MachOGotMeaning.Settled;
    var texts := ImageSections(GotLoads(slots), s, base, size);
    forall k | 0 <= k < |texts| && Applies(GotLoads(slots), base, size, texts[k])
      ensures MachOGotForm.AllStop(MachOGot.Words(s, base + texts[k].offset, texts[k].size / 4), texts[k].address, slots)
    {
      MachOGotForm.SettledStops(MachOGot.Words(s, base + texts[k].offset, texts[k].size / 4), texts[k].address, slots);
    }
    CanonicalImageTwiceIff(s, base, size, slots);
    CanonicalKeepsSections(s, base, size, slots, Stubs);
    CanonicalDecides(s, CanonicalImage(s, base, size, slots), base, size, slots);
  }
}
